/**
 * School board posts and their comment threads: who may read a post, which
 * tab lists it, the defaults `createPost` fills in, and the reply forest
 * that `deleteComment` counts and removes.
 */
module Posts {
  import opened Common
  import opened Users

  /** The `content` column of a post holds at most 5000 characters. */
  const MAX_POST_CONTENT: nat := 5000

  /** The `content` column of a comment holds at most 1000 characters. */
  const MAX_COMMENT_CONTENT: nat := 1000

  /**
   * The `posts` and `post_images` columns a post must fit: content 5000;
   * every image URL, the school name and year, the visibility and the
   * target grade and class are declared without a length (255).
   */
  predicate PostFits(p: Post) {
    && |p.content| <= MAX_POST_CONTENT
    && UrlsFit(p.imageUrls)
    && FitsIn(p.schoolName, DEFAULT_COLUMN_LENGTH)
    && FitsIn(p.graduationYear, DEFAULT_COLUMN_LENGTH)
    && FitsIn(p.visibility, DEFAULT_COLUMN_LENGTH)
    && FitsIn(p.targetGrade, DEFAULT_COLUMN_LENGTH)
    && FitsIn(p.targetClassNumber, DEFAULT_COLUMN_LENGTH)
  }

  /** Every `post_images.image_url` fits its default-length column. */
  predicate UrlsFit(urls: seq<string>) {
    forall i | 0 <= i < |urls| :: |urls[i]| <= DEFAULT_COLUMN_LENGTH
  }

  datatype Post = Post(
    author: UserId,
    content: string,
    imageUrls: seq<string>,
    schoolName: Option<string>,
    graduationYear: Option<string>,
    visibility: Option<string>,      // "SCHOOL", "GRADE" or "CLASS"; any other text is stored as given
    targetGrade: Option<string>,
    targetClassNumber: Option<string>,
    likeCount: int,
    commentCount: int,
    viewCount: int)

  datatype Comment = Comment(
    post: nat,
    author: UserId,
    content: string,
    parent: Option<nat>,             // `parentComment`: the comment this one replies to
    mentioned: set<UserId>,
    createdAt: Time,
    updatedAt: Option<Time>)

  /** A `post_likes` row. */
  datatype Like = Like(post: nat, user: UserId)

  // ---------------------------------------------------------------------------
  // Visibility

  /** `s.getGrade() != null && s.getGrade().equals(post.getTargetGrade())`. */
  predicate SameGrade(s: UserSchool, p: Post) {
    s.grade.Some? && s.grade == p.targetGrade
  }

  /** The enrolment has the post's target grade and, non-null as well, its target class. */
  predicate SameClass(s: UserSchool, p: Post) {
    SameGrade(s, p) && s.classNumber.Some? && s.classNumber == p.targetClassNumber
  }

  predicate AnyGrade(schools: seq<UserSchool>, p: Post) {
    exists i | 0 <= i < |schools| :: SameGrade(schools[i], p)
  }

  predicate AnyClass(schools: seq<UserSchool>, p: Post) {
    exists i | 0 <= i < |schools| :: SameClass(schools[i], p)
  }

  /** A post every member of the school sees: no visibility, or "SCHOOL". */
  predicate SchoolWide(p: Post) {
    p.visibility.None? || p.visibility == Some("SCHOOL")
  }

  /** `canUserAccessPost`, given the user's enrolments at the board's school. */
  predicate CanAccess(p: Post, schools: seq<UserSchool>) {
    if SchoolWide(p) then true
    else if p.visibility == Some("GRADE") then AnyGrade(schools, p)
    else if p.visibility == Some("CLASS") then AnyClass(schools, p)
    else true
  }

  /** `isPostForGradeTab`. */
  predicate GradeTab(p: Post, schools: seq<UserSchool>) {
    p.visibility == Some("GRADE") && AnyGrade(schools, p)
  }

  /** `isPostForClassTab`. */
  predicate ClassTab(p: Post, schools: seq<UserSchool>) {
    p.visibility == Some("CLASS") && AnyClass(schools, p)
  }

  /** The "myClass" tab with an explicit grade and class: no access check at all. */
  predicate ExplicitClass(p: Post, grade: string, classNumber: string) {
    p.visibility == Some("CLASS") && p.targetGrade == Some(grade) && p.targetClassNumber == Some(classNumber)
  }

  /**
   * The tab filter of `getPosts`: "myGrade", "myClass" (by the explicit grade
   * and class when both are non-empty), and for every other filter value the
   * "all" tab, which keeps only school-wide posts.
   */
  predicate Listed(p: Post, filter: string, schools: seq<UserSchool>, grade: Option<string>, classNumber: Option<string>) {
    if filter == "myGrade" then CanAccess(p, schools) && GradeTab(p, schools)
    else if filter == "myClass" then
      if NonEmpty(grade) && NonEmpty(classNumber) then ExplicitClass(p, grade.value, classNumber.value)
      else CanAccess(p, schools) && ClassTab(p, schools)
    else CanAccess(p, schools) && SchoolWide(p)
  }

  /**
   * The access rule: school-wide posts and posts with an unknown visibility
   * are open to everyone; a GRADE post needs an enrolment of the same grade;
   * a CLASS post one of the same grade and class.
   */
  lemma AccessRules(p: Post, schools: seq<UserSchool>)
    ensures SchoolWide(p) ==> CanAccess(p, schools)
    ensures p.visibility == Some("GRADE") ==>
      (CanAccess(p, schools) <==> exists s | s in schools :: s.grade.Some? && s.grade == p.targetGrade)
    ensures p.visibility == Some("CLASS") ==>
      (CanAccess(p, schools) <==> exists s | s in schools ::
         s.grade.Some? && s.grade == p.targetGrade && s.classNumber.Some? && s.classNumber == p.targetClassNumber)
    ensures !SchoolWide(p) && p.visibility != Some("GRADE") && p.visibility != Some("CLASS") ==> CanAccess(p, schools)
  {
    if p.visibility == Some("GRADE") && CanAccess(p, schools) {
      var i :| 0 <= i < |schools| && SameGrade(schools[i], p);
      assert schools[i] in schools;
    }
    if p.visibility == Some("CLASS") && CanAccess(p, schools) {
      var i :| 0 <= i < |schools| && SameClass(schools[i], p);
      assert schools[i] in schools;
    }
  }

  /**
   * What each tab shows. The "all" tab shows exactly the school-wide posts;
   * the grade and class tabs show exactly the GRADE (CLASS) posts that match
   * one of the user's grades (grade and class pairs), and those are always
   * accessible; with an explicit grade and class the class tab skips the
   * access check. A post is listed on at most one of the three tabs.
   */
  lemma TabContents(p: Post, schools: seq<UserSchool>, filter: string, grade: Option<string>, classNumber: Option<string>)
    ensures filter != "myGrade" && filter != "myClass" ==> (Listed(p, filter, schools, grade, classNumber) <==> SchoolWide(p))
    ensures filter == "myGrade" ==> (Listed(p, filter, schools, grade, classNumber) <==> GradeTab(p, schools))
    ensures filter == "myClass" && !(NonEmpty(grade) && NonEmpty(classNumber)) ==>
      (Listed(p, filter, schools, grade, classNumber) <==> ClassTab(p, schools))
    ensures filter == "myClass" && NonEmpty(grade) && NonEmpty(classNumber) ==>
      (Listed(p, filter, schools, grade, classNumber) <==> ExplicitClass(p, grade.value, classNumber.value))
    ensures !(filter == "myClass" && NonEmpty(grade) && NonEmpty(classNumber)) && Listed(p, filter, schools, grade, classNumber) ==>
      CanAccess(p, schools)
    ensures !(SchoolWide(p) && GradeTab(p, schools)) && !(SchoolWide(p) && ClassTab(p, schools))
      && !(GradeTab(p, schools) && ClassTab(p, schools))
  {
  }

  /** The explicit class tab can list a post the user may not read. */
  lemma ExplicitClassSkipsAccess()
    ensures var p := Post("a", "", [], Some("S"), None, Some("CLASS"), Some("2"), Some("3"), 0, 0, 0);
      var schools := [UserSchool(None, "고등학교", "S", "2010", Some("1"), Some("3"))];
      Listed(p, "myClass", schools, Some("2"), Some("3")) && !CanAccess(p, schools)
  {
    var p := Post("a", "", [], Some("S"), None, Some("CLASS"), Some("2"), Some("3"), 0, 0, 0);
    var schools := [UserSchool(None, "고등학교", "S", "2010", Some("1"), Some("3"))];
    assert !SameClass(schools[0], p);
  }

  /** Adding enrolments never hides a post the user could already read or list on a tab. */
  lemma MoreEnrolmentsSeeMore(p: Post, schools: seq<UserSchool>, more: seq<UserSchool>)
    requires forall s | s in schools :: s in more
    ensures CanAccess(p, schools) ==> CanAccess(p, more)
    ensures GradeTab(p, schools) ==> GradeTab(p, more)
    ensures ClassTab(p, schools) ==> ClassTab(p, more)
  {
    if AnyGrade(schools, p) {
      var i :| 0 <= i < |schools| && SameGrade(schools[i], p);
      assert schools[i] in more;
      var j :| 0 <= j < |more| && more[j] == schools[i];
      assert SameGrade(more[j], p);
    }
    if AnyClass(schools, p) {
      var i :| 0 <= i < |schools| && SameClass(schools[i], p);
      assert schools[i] in more;
      var j :| 0 <= j < |more| && more[j] == schools[i];
      assert SameClass(more[j], p);
    }
  }

  // ---------------------------------------------------------------------------
  // The user's enrolments a request names

  /** The enrolment matches the requested school name (non-empty) and, when one is given, the year. */
  predicate Requested(s: UserSchool, reqSchoolName: Option<string>, reqGraduationYear: Option<string>) {
    NonEmpty(reqSchoolName) && s.schoolName == reqSchoolName.value
    && (!NonEmpty(reqGraduationYear) || s.graduationYear == reqGraduationYear.value)
  }

  /** The requested enrolments, in the user's order. */
  function RequestedSchools(schools: seq<UserSchool>, reqSchoolName: Option<string>, reqGraduationYear: Option<string>)
    : (r: seq<UserSchool>)
    ensures forall s :: s in r <==> s in schools && Requested(s, reqSchoolName, reqGraduationYear)
    decreases |schools|
  {
    if schools == [] then []
    else
      var last := schools[|schools| - 1];
      RequestedSchools(schools[..|schools| - 1], reqSchoolName, reqGraduationYear)
        + (if Requested(last, reqSchoolName, reqGraduationYear) then [last] else [])
  }

  lemma {:induction false} RequestedSchoolsAppend(a: seq<UserSchool>, b: seq<UserSchool>,
                                                  reqSchoolName: Option<string>, reqGraduationYear: Option<string>)
    ensures RequestedSchools(a + b, reqSchoolName, reqGraduationYear)
         == RequestedSchools(a, reqSchoolName, reqGraduationYear) + RequestedSchools(b, reqSchoolName, reqGraduationYear)
    decreases |b|
  {
    if b != [] {
      var front := b[..|b| - 1];
      RequestedSchoolsAppend(a, front, reqSchoolName, reqGraduationYear);
      assert (a + b)[..|a + b| - 1] == a + front;
    } else {
      assert a + b == a;
    }
  }

  /** Without a requested school name nothing is requested. */
  lemma {:induction false} NothingRequested(schools: seq<UserSchool>, reqSchoolName: Option<string>,
                                            reqGraduationYear: Option<string>)
    requires !NonEmpty(reqSchoolName)
    ensures RequestedSchools(schools, reqSchoolName, reqGraduationYear) == []
    decreases |schools|
  {
    if schools != [] {
      NothingRequested(schools[..|schools| - 1], reqSchoolName, reqGraduationYear);
    }
  }

  /** The first requested enrolment heads the matching list. */
  lemma FirstRequested(schools: seq<UserSchool>, i: nat, reqSchoolName: Option<string>, reqGraduationYear: Option<string>)
    requires i < |schools| && Requested(schools[i], reqSchoolName, reqGraduationYear)
    requires RequestedSchools(schools[..i], reqSchoolName, reqGraduationYear) == []
    ensures MatchingSchools(schools, reqSchoolName, reqGraduationYear)[0] == schools[i]
  {
    assert schools == schools[..i + 1] + schools[i + 1..];
    RequestedSchoolsAppend(schools[..i + 1], schools[i + 1..], reqSchoolName, reqGraduationYear);
    assert schools[..i + 1][..i] == schools[..i];
  }

  /**
   * `findAllMatchingSchools`: the requested enrolments, or the user's first
   * enrolment alone when none is requested or none matches.
   */
  function MatchingSchools(schools: seq<UserSchool>, reqSchoolName: Option<string>, reqGraduationYear: Option<string>)
    : (r: seq<UserSchool>)
    ensures r != [] <==> schools != []
    ensures forall s | s in r :: s in schools
    ensures (exists s | s in schools :: Requested(s, reqSchoolName, reqGraduationYear)) ==>
      forall s :: s in r <==> s in schools && Requested(s, reqSchoolName, reqGraduationYear)
    ensures !(exists s | s in schools :: Requested(s, reqSchoolName, reqGraduationYear)) && schools != [] ==>
      r == [schools[0]]
  {
    var req := RequestedSchools(schools, reqSchoolName, reqGraduationYear);
    if req == [] && schools != [] then
      assert !(exists s | s in schools :: Requested(s, reqSchoolName, reqGraduationYear));
      [schools[0]]
    else
      assert req != [] ==> req[0] in req;
      req
  }

  /** The board a request reaches: the school of the first matching enrolment. */
  lemma BoardSchool(schools: seq<UserSchool>, reqSchoolName: Option<string>, reqGraduationYear: Option<string>)
    requires schools != []
    ensures (exists s | s in schools :: Requested(s, reqSchoolName, reqGraduationYear)) ==>
      MatchingSchools(schools, reqSchoolName, reqGraduationYear)[0].schoolName == reqSchoolName.value
    ensures !(exists s | s in schools :: Requested(s, reqSchoolName, reqGraduationYear)) ==>
      MatchingSchools(schools, reqSchoolName, reqGraduationYear)[0] == schools[0]
  {
    var r := MatchingSchools(schools, reqSchoolName, reqGraduationYear);
    assert r[0] in r;
  }

  /** `findAllMatchingSchools` as the service writes it: one pass collecting matches, then the fallback. */
  method FindAllMatchingSchools(schools: seq<UserSchool>, reqSchoolName: Option<string>, reqGraduationYear: Option<string>)
    returns (result: seq<UserSchool>)
    ensures result == MatchingSchools(schools, reqSchoolName, reqGraduationYear)
  {
    result := [];
    if NonEmpty(reqSchoolName) {
      var i := 0;
      while i < |schools|
        invariant i <= |schools|
        invariant result == RequestedSchools(schools[..i], reqSchoolName, reqGraduationYear)
      {
        assert schools[..i + 1][..i] == schools[..i];
        if schools[i].schoolName == reqSchoolName.value {
          if !NonEmpty(reqGraduationYear) || schools[i].graduationYear == reqGraduationYear.value {
            result := result + [schools[i]];
          }
        }
        i := i + 1;
      }
      assert schools[..i] == schools;
    } else {
      NothingRequested(schools, reqSchoolName, reqGraduationYear);
    }
    if result == [] && schools != [] {
      result := [schools[0]];
    }
  }

  /**
   * `findMatchingSchool`: the first requested enrolment, else the first
   * enrolment; `None` stands for the exception `get(0)` throws on a user
   * without enrolments. It always agrees with the head of
   * `findAllMatchingSchools`.
   */
  method FindMatchingSchool(schools: seq<UserSchool>, reqSchoolName: Option<string>, reqGraduationYear: Option<string>)
    returns (r: Option<UserSchool>)
    ensures r.None? <==> schools == []
    ensures r.Some? ==> r.value == MatchingSchools(schools, reqSchoolName, reqGraduationYear)[0]
  {
    if NonEmpty(reqSchoolName) {
      var i := 0;
      while i < |schools|
        invariant i <= |schools|
        invariant RequestedSchools(schools[..i], reqSchoolName, reqGraduationYear) == []
      {
        assert schools[..i + 1][..i] == schools[..i];
        if schools[i].schoolName == reqSchoolName.value {
          if !NonEmpty(reqGraduationYear) || schools[i].graduationYear == reqGraduationYear.value {
            FirstRequested(schools, i, reqSchoolName, reqGraduationYear);
            return Some(schools[i]);
          }
        }
        i := i + 1;
      }
      assert schools[..i] == schools;
    } else {
      NothingRequested(schools, reqSchoolName, reqGraduationYear);
    }
    if schools == [] {
      return None;
    }
    r := Some(schools[0]);
  }

  // ---------------------------------------------------------------------------
  // createPost

  /** The fields of a `CreatePostRequest`; null lists and strings are `None`. */
  datatype PostRequest = PostRequest(
    content: string,
    imageUrls: Option<seq<string>>,
    schoolName: Option<string>,
    graduationYear: Option<string>,
    visibility: Option<string>,
    targetGrade: Option<string>,
    targetClassNumber: Option<string>)

  /** The visibility a post is saved with: the request's, or "SCHOOL" when it is null or empty. */
  function VisibilityOf(req: PostRequest): (v: string)
    ensures NonEmpty(req.visibility) ==> v == req.visibility.value
    ensures !NonEmpty(req.visibility) ==> v == "SCHOOL"
  {
    if NonEmpty(req.visibility) then req.visibility.value else "SCHOOL"
  }

  /**
   * The school a post is filed under, with its year: the request's, unless
   * the requested name is null or empty and the author has an enrolment, in
   * which case the author's first enrolment.
   */
  function FiledUnder(author: User, req: PostRequest): (r: (Option<string>, Option<string>))
    ensures NonEmpty(req.schoolName) || author.schools == [] ==> r == (req.schoolName, req.graduationYear)
    ensures !NonEmpty(req.schoolName) && author.schools != [] ==>
      r == (Some(author.schools[0].schoolName), Some(author.schools[0].graduationYear))
  {
    if !NonEmpty(req.schoolName) && author.schools != [] then
      (Some(author.schools[0].schoolName), Some(author.schools[0].graduationYear))
    else (req.schoolName, req.graduationYear)
  }

  /**
   * The post `createPost` saves, before the database checks its columns.
   * A GRADE or CLASS post takes the request's target grade when it is
   * non-empty (and, for CLASS, the request's class when that is non-empty);
   * otherwise both come from the enrolment `findMatchingSchool` picks, which
   * fails for an author without enrolments.
   */
  function Drafted(author: User, req: PostRequest): (r: Outcome<Post>)
    ensures r.Fail? <==>
      VisibilityOf(req) in {"GRADE", "CLASS"} && !NonEmpty(req.targetGrade) && author.schools == []
    ensures r.Fail? ==> r.error == Invalid
    ensures r.Ok? ==>
      && r.value.author == author.userId && r.value.content == req.content
      && r.value.likeCount == 0 && r.value.commentCount == 0 && r.value.viewCount == 0
      && r.value.imageUrls == (if req.imageUrls.Some? then req.imageUrls.value else [])
      && (r.value.schoolName, r.value.graduationYear) == FiledUnder(author, req)
      && r.value.visibility == Some(VisibilityOf(req))
    ensures r.Ok? && VisibilityOf(req) !in {"GRADE", "CLASS"} ==>
      r.value.targetGrade.None? && r.value.targetClassNumber.None?
    ensures r.Ok? && VisibilityOf(req) != "CLASS" ==> r.value.targetClassNumber.None?
    ensures r.Ok? && VisibilityOf(req) in {"GRADE", "CLASS"} && NonEmpty(req.targetGrade) ==>
      && r.value.targetGrade == req.targetGrade
      && (VisibilityOf(req) == "CLASS" ==>
            r.value.targetClassNumber == if NonEmpty(req.targetClassNumber) then req.targetClassNumber else None)
    ensures r.Ok? && VisibilityOf(req) in {"GRADE", "CLASS"} && !NonEmpty(req.targetGrade) ==>
      var s := MatchingSchools(author.schools, FiledUnder(author, req).0, FiledUnder(author, req).1)[0];
      && r.value.targetGrade == s.grade
      && (VisibilityOf(req) == "CLASS" ==> r.value.targetClassNumber == s.classNumber)
  {
    var vis := VisibilityOf(req);
    var (schoolName, graduationYear) := FiledUnder(author, req);
    var images := if req.imageUrls.Some? then req.imageUrls.value else [];
    if vis != "GRADE" && vis != "CLASS" then
      Ok(Post(author.userId, req.content, images, schoolName, graduationYear, Some(vis), None, None, 0, 0, 0))
    else if NonEmpty(req.targetGrade) then
      var cls := if vis == "CLASS" && NonEmpty(req.targetClassNumber) then req.targetClassNumber else None;
      Ok(Post(author.userId, req.content, images, schoolName, graduationYear, Some(vis), req.targetGrade, cls, 0, 0, 0))
    else if author.schools == [] then
      Fail(Invalid)
    else
      var s := MatchingSchools(author.schools, schoolName, graduationYear)[0];
      var cls := if vis == "CLASS" then s.classNumber else None;
      Ok(Post(author.userId, req.content, images, schoolName, graduationYear, Some(vis), s.grade, cls, 0, 0, 0))
  }

  /** `createPost`'s field computation, step by step as the service does it. */
  method Draft(author: User, req: PostRequest) returns (r: Outcome<Post>)
    ensures r == Drafted(author, req)
  {
    var schoolName := req.schoolName;
    var graduationYear := req.graduationYear;
    if !NonEmpty(schoolName) && author.schools != [] {
      schoolName := Some(author.schools[0].schoolName);
      graduationYear := Some(author.schools[0].graduationYear);
    }
    var visibility := req.visibility;
    if !NonEmpty(visibility) {
      visibility := Some("SCHOOL");
    }
    var targetGrade: Option<string> := None;
    var targetClassNumber: Option<string> := None;
    if visibility == Some("GRADE") || visibility == Some("CLASS") {
      if NonEmpty(req.targetGrade) {
        targetGrade := req.targetGrade;
        if visibility == Some("CLASS") && NonEmpty(req.targetClassNumber) {
          targetClassNumber := req.targetClassNumber;
        }
      } else {
        var matched := FindMatchingSchool(author.schools, schoolName, graduationYear);
        if matched.None? {
          return Fail(Invalid);
        }
        targetGrade := matched.value.grade;
        if visibility == Some("CLASS") {
          targetClassNumber := matched.value.classNumber;
        }
      }
    }
    var images := if req.imageUrls.Some? then req.imageUrls.value else [];
    r := Ok(Post(author.userId, req.content, images, schoolName, graduationYear, visibility,
                 targetGrade, targetClassNumber, 0, 0, 0));
  }

  /**
   * A GRADE or CLASS post whose target comes from the author's own enrolment
   * is one the author may read.
   */
  lemma AuthorSeesOwnTargetedPost(author: User, req: PostRequest)
    requires Drafted(author, req).Ok? && !NonEmpty(req.targetGrade)
    requires VisibilityOf(req) == "GRADE" ==> MatchingSchools(author.schools, FiledUnder(author, req).0, FiledUnder(author, req).1)[0].grade.Some?
    requires VisibilityOf(req) == "CLASS" ==>
      var s := MatchingSchools(author.schools, FiledUnder(author, req).0, FiledUnder(author, req).1)[0];
      s.grade.Some? && s.classNumber.Some?
    ensures CanAccess(Drafted(author, req).value, MatchingSchools(author.schools, FiledUnder(author, req).0, FiledUnder(author, req).1))
  {
    var p := Drafted(author, req).value;
    var m := MatchingSchools(author.schools, FiledUnder(author, req).0, FiledUnder(author, req).1);
    if VisibilityOf(req) == "GRADE" {
      assert SameGrade(m[0], p);
    } else if VisibilityOf(req) == "CLASS" {
      assert SameClass(m[0], p);
    }
  }

  // ---------------------------------------------------------------------------
  // Responses and counters

  /** A `PostResponse`, with the author's school as shown. */
  datatype PostView = PostView(
    id: nat,
    author: UserId,
    content: string,
    imageUrls: seq<string>,
    schoolName: Option<string>,
    graduationYear: Option<string>,
    likeCount: int,
    commentCount: int,
    viewCount: int,
    liked: bool,
    visibility: Option<string>,
    targetGrade: Option<string>,
    targetClassNumber: Option<string>)

  /** The likes of one post. */
  function LikesOf(likes: set<Like>, id: nat): set<Like> {
    set l | l in likes && l.post == id
  }

  /**
   * `toPostResponse`: the post's own school when its name is non-empty, else
   * the author's first enrolment (or none); `liked` only for a known viewer
   * who has a like row on the post.
   */
  function ViewOf(id: nat, p: Post, users: map<UserId, User>, likes: set<Like>, viewer: Option<UserId>): (v: PostView)
    ensures v.id == id && v.author == p.author && v.content == p.content
    ensures v.likeCount == p.likeCount && v.commentCount == p.commentCount && v.viewCount == p.viewCount
    ensures v.visibility == p.visibility && v.targetGrade == p.targetGrade && v.targetClassNumber == p.targetClassNumber
    ensures NonEmpty(p.schoolName) ==> v.schoolName == p.schoolName && v.graduationYear == p.graduationYear
    ensures !NonEmpty(p.schoolName) && p.author in users && users[p.author].schools != [] ==>
      v.schoolName == Some(users[p.author].schools[0].schoolName)
      && v.graduationYear == Some(users[p.author].schools[0].graduationYear)
    ensures !NonEmpty(p.schoolName) && (p.author !in users || users[p.author].schools == []) ==>
      v.schoolName.None? && v.graduationYear.None?
    ensures v.liked <==> viewer.Some? && viewer.value in users && Like(id, viewer.value) in likes
  {
    var schools := if p.author in users then users[p.author].schools else [];
    var (name, year) :=
      if NonEmpty(p.schoolName) then (p.schoolName, p.graduationYear)
      else if schools != [] then (Some(schools[0].schoolName), Some(schools[0].graduationYear))
      else (None, None);
    PostView(id, p.author, p.content, p.imageUrls, name, year, p.likeCount, p.commentCount, p.viewCount,
             viewer.Some? && viewer.value in users && Like(id, viewer.value) in likes,
             p.visibility, p.targetGrade, p.targetClassNumber)
  }

  /** The per-tab result of `getNewPostCounts`. */
  datatype NewCounts = NewCounts(all: nat, myGrade: nat, myClass: nat)

  /** The posts of the board's school listed on a tab whose id is above `lastSeen`. */
  function NewOnTab(posts: map<nat, Post>, board: string, schools: seq<UserSchool>, filter: string, lastSeen: int): set<nat> {
    set id | id in posts && posts[id].schoolName == Some(board) && id > lastSeen
                         && Listed(posts[id], filter, schools, None, None)
  }

  /** How many entries at the head of a list have an id above `lastSeen`. */
  function LeadingAbove(ids: seq<nat>, lastSeen: int): (n: nat)
    ensures n <= |ids|
    ensures forall i | 0 <= i < n :: ids[i] > lastSeen
    ensures n < |ids| ==> ids[n] <= lastSeen
  {
    if ids == [] || ids[0] <= lastSeen then 0 else 1 + LeadingAbove(ids[1..], lastSeen)
  }

  /**
   * The new-post count of a tab is the number of entries at the head of
   * that tab's listing (newest first, same user and school) whose id is
   * above the last one seen, and those entries are exactly the new posts.
   */
  lemma NewCountIsListingLength(ids: seq<nat>, posts: map<nat, Post>, board: string, schools: seq<UserSchool>,
                                filter: string, lastSeen: int)
    requires NewestFirstOrder(ids)
    requires forall id :: id in ids <==>
      id in posts && posts[id].schoolName == Some(board) && Listed(posts[id], filter, schools, None, None)
    ensures |NewOnTab(posts, board, schools, filter, lastSeen)| == LeadingAbove(ids, lastSeen)
    ensures forall id :: id in NewOnTab(posts, board, schools, filter, lastSeen) <==> id in ids[..LeadingAbove(ids, lastSeen)]
  {
    var n := LeadingAbove(ids, lastSeen);
    var head := ids[..n];
    forall id
      ensures id in NewOnTab(posts, board, schools, filter, lastSeen) <==> id in head
    {
      if id in ids && id !in head {
        var j :| 0 <= j < |ids| && ids[j] == id;
        assert n <= j;
        assert ids[j] <= ids[n];
      }
    }
    ListLengthIsCardinality(head, NewOnTab(posts, board, schools, filter, lastSeen));
  }

  // ---------------------------------------------------------------------------
  // The reply forest

  /** Following parent links up from `x` reaches `a`; a link always points to an older comment. */
  predicate Below(rows: map<nat, Comment>, x: nat, a: nat)
    decreases x
  {
    && x in rows && rows[x].parent.Some? && rows[x].parent.value < x
    && (rows[x].parent.value == a || Below(rows, rows[x].parent.value, a))
  }

  /** Every reply to `a` at any depth: what `countAllReplies(a)` counts. */
  function Descendants(rows: map<nat, Comment>, a: nat): set<nat> {
    set x | x in rows && Below(rows, x, a)
  }

  /** A comment with all its replies: what deleting it removes, replies cascading. */
  function Subtree(rows: map<nat, Comment>, a: nat): set<nat> {
    {a} + Descendants(rows, a)
  }

  /** Every reply points to a stored, older comment (its parent existed when it was saved). */
  ghost predicate Forest(rows: map<nat, Comment>) {
    forall x | x in rows && rows[x].parent.Some? :: rows[x].parent.value in rows && rows[x].parent.value < x
  }

  lemma {:induction false} BelowIsYounger(rows: map<nat, Comment>, x: nat, a: nat)
    requires Below(rows, x, a)
    ensures a < x
    decreases x
  {
    var p := rows[x].parent.value;
    if p != a {
      BelowIsYounger(rows, p, a);
    }
  }

  /** The direct reply to `a` on the way up from `x`. */
  function Top(rows: map<nat, Comment>, x: nat, a: nat): (c: nat)
    requires Below(rows, x, a)
    ensures c in rows && rows[c].parent == Some(a) && (c == x || Below(rows, x, c))
    decreases x
  {
    var p := rows[x].parent.value;
    if p == a then x else Top(rows, p, a)
  }

  /** Everything in the subtree of a direct reply `c` to `a` lies below `a`, reached through `c`. */
  lemma {:induction false} ThroughChild(rows: map<nat, Comment>, x: nat, c: nat, a: nat)
    requires c in rows && rows[c].parent == Some(a) && a < c
    requires x == c || Below(rows, x, c)
    ensures Below(rows, x, a) && Top(rows, x, a) == c
    decreases x
  {
    if x != c {
      var p := rows[x].parent.value;
      if p != c {
        ThroughChild(rows, p, c, a);
        BelowIsYounger(rows, p, c);
      }
    }
  }

  /** The replies to `a` at any depth that hang under one of the listed direct replies. */
  function Through(rows: map<nat, Comment>, a: nat, ks: seq<nat>): set<nat> {
    set x | x in rows && Below(rows, x, a) && Top(rows, x, a) in ks
  }

  /** One more direct reply adds its whole subtree, which the earlier ones did not reach. */
  lemma ThroughStep(rows: map<nat, Comment>, a: nat, ks: seq<nat>, i: nat)
    requires OldestFirstOrder(ks) && i < |ks|
    requires ks[i] in rows && rows[ks[i]].parent == Some(a) && a < ks[i]
    ensures |Through(rows, a, ks[..i + 1])| == |Through(rows, a, ks[..i])| + 1 + |Descendants(rows, ks[i])|
  {
    var c := ks[i];
    assert forall k | 0 <= k < i :: ks[..i][k] < c;
    assert c !in ks[..i];
    assert ks[..i + 1] == ks[..i] + [c];
    var before := Through(rows, a, ks[..i]);
    var sub := Subtree(rows, c);
    forall x | x in sub ensures Below(rows, x, a) && Top(rows, x, a) == c {
      ThroughChild(rows, x, c, a);
    }
    assert Through(rows, a, ks[..i + 1]) == before + sub;
    assert before * sub == {};
    assert c !in Descendants(rows, c) by {
      if Below(rows, c, c) {
        BelowIsYounger(rows, c, c);
      }
    }
  }

  /** Once every direct reply is listed, the listed subtrees cover all descendants. */
  lemma ThroughAll(rows: map<nat, Comment>, a: nat, ks: seq<nat>)
    requires forall c | c in rows && rows[c].parent == Some(a) :: c in ks
    ensures Through(rows, a, ks) == Descendants(rows, a)
  {
  }

  /**
   * `countAllReplies`: for each direct reply, one plus the replies below it.
   * The replies of a comment are the rows whose parent it is, in id order.
   */
  method CountAllReplies(t: Table<Comment>, a: nat) returns (n: nat)
    requires t.Valid() && Forest(t.rows)
    ensures n == |Descendants(t.rows, a)|
    decreases t.next - a
  {
    var replies := SelectOldest(t, (c: Comment) => c.parent == Some(a));
    n := 0;
    var i := 0;
    while i < |replies|
      invariant i <= |replies|
      invariant n == |Through(t.rows, a, replies[..i])|
    {
      var c := replies[i];
      assert c in t.rows && t.rows[c].parent == Some(a);
      var below := CountAllReplies(t, c);
      ThroughStep(t.rows, a, replies, i);
      n := n + 1 + below;
      i := i + 1;
    }
    assert replies[..i] == replies;
    ThroughAll(t.rows, a, replies);
  }

  /** Deleting a comment with its subtree leaves a forest: no surviving reply loses its parent. */
  lemma SubtreeRemovalKeepsForest(rows: map<nat, Comment>, a: nat)
    requires Forest(rows)
    ensures Forest(rows - Subtree(rows, a))
  {
    forall x | x in rows && rows[x].parent.Some? && rows[x].parent.value in Subtree(rows, a)
      ensures x in Subtree(rows, a)
    {
      assert Below(rows, x, a);
    }
  }

  /**
   * `x` is a comment of post `pid`, or hangs below one: what
   * `deleteAllByPost` removes, since each removed comment cascades to its
   * replies whatever post they were saved under.
   */
  predicate OnOrBelow(rows: map<nat, Comment>, x: nat, pid: nat)
    decreases x
  {
    x in rows
    && (rows[x].post == pid
        || (rows[x].parent.Some? && rows[x].parent.value < x && OnOrBelow(rows, rows[x].parent.value, pid)))
  }

  function Swept(rows: map<nat, Comment>, pid: nat): (r: set<nat>)
    ensures forall x | x in rows && rows[x].post == pid :: x in r
  {
    set x | x in rows && OnOrBelow(rows, x, pid)
  }

  /** After the sweep no comment of the post is left and no surviving reply loses its parent. */
  lemma SweepKeepsForest(rows: map<nat, Comment>, pid: nat)
    requires Forest(rows)
    ensures Forest(rows - Swept(rows, pid))
    ensures forall x | x in rows - Swept(rows, pid) :: rows[x].post != pid
  {
    forall x | x in rows && rows[x].parent.Some? && rows[x].parent.value in Swept(rows, pid)
      ensures x in Swept(rows, pid)
    {
      assert OnOrBelow(rows, x, pid);
    }
  }
}
