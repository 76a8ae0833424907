/**
 * Profiles and the two user searches: classmates by school code and
 * graduation year, and the free search by name and enrolment details.
 * The repositories' answers are parameters, together with what the queries
 * guarantee about them; the order the database returns rows in is kept.
 */
module Profiles {
  import opened Common
  import opened Users

  /** One search hit: the account and the enrolment shown with it. */
  datatype ClassmateInfo = ClassmateInfo(
    userId: UserId,
    name: string,
    profileImageUrl: Option<string>,
    bio: Option<string>,
    school: Option<UserSchool>)

  datatype SearchResult = SearchResult(classmates: seq<ClassmateInfo>, totalCount: int)

  function Info(u: User, school: Option<UserSchool>): ClassmateInfo {
    ClassmateInfo(u.userId, u.name, u.profileImageUrl, u.bio, school)
  }

  function Ids(cs: seq<ClassmateInfo>): (ids: seq<UserId>)
    ensures |ids| == |cs| && forall i | 0 <= i < |cs| :: ids[i] == cs[i].userId
  {
    seq(|cs|, i requires 0 <= i < |cs| => cs[i].userId)
  }

  // ---------------------------------------------------------------------------
  // searchClassmates

  predicate Attended(s: UserSchool, schoolCode: string, graduationYear: string) {
    s.schoolCode == Some(schoolCode) && s.graduationYear == graduationYear
  }

  /** The position of the first enrolment at this school and year, or the length when there is none. */
  function FirstAttendedAt(schools: seq<UserSchool>, schoolCode: string, graduationYear: string): (i: nat)
    ensures i <= |schools|
    ensures i < |schools| ==> Attended(schools[i], schoolCode, graduationYear)
    ensures forall j | 0 <= j < i :: !Attended(schools[j], schoolCode, graduationYear)
  {
    if schools == [] || Attended(schools[0], schoolCode, graduationYear) then 0
    else 1 + FirstAttendedAt(schools[1..], schoolCode, graduationYear)
  }

  /** The enrolment a classmate is shown with: the first at this school and year, if any. */
  function FirstAttended(schools: seq<UserSchool>, schoolCode: string, graduationYear: string): Option<UserSchool> {
    var i := FirstAttendedAt(schools, schoolCode, graduationYear);
    if i < |schools| then Some(schools[i]) else None
  }

  predicate HasAttended(u: User, schoolCode: string, graduationYear: string) {
    FirstAttendedAt(u.schools, schoolCode, graduationYear) < |u.schools|
  }

  /**
   * What `findBySchoolCodeAndGraduationYear` returns, as the owners of the
   * matching enrolment rows in the order the rows come back: every owner has
   * such an enrolment and every account with one appears.
   */
  ghost predicate EnrolmentOwners(users: map<UserId, User>, owners: seq<UserId>, schoolCode: string, graduationYear: string) {
    (forall i | 0 <= i < |owners| :: owners[i] in users && HasAttended(users[owners[i]], schoolCode, graduationYear))
    && (forall id | id in users && HasAttended(users[id], schoolCode, graduationYear) :: id in owners)
  }

  /** `distinct()`: the first occurrence of every id, in order. */
  function Dedup(s: seq<UserId>): (r: seq<UserId>)
    ensures Distinct(r)
    ensures forall x :: x in r <==> x in s
  {
    if s == [] then []
    else
      var front := Dedup(s[..|s| - 1]);
      assert forall x :: x in s <==> x in s[..|s| - 1] || x == s[|s| - 1];
      if s[|s| - 1] in front then front
      else
        AppendFresh(front, s[|s| - 1]);
        front + [s[|s| - 1]]
  }

  /**
   * `searchClassmates`: the owners of the matching enrolments, each once and
   * without the caller, each shown with their first enrolment at that school
   * and year; the count is the list's length.
   */
  function Classmates(users: map<UserId, User>, owners: seq<UserId>, caller: UserId, schoolCode: string, graduationYear: string)
    : (r: SearchResult)
    requires UniqueAccounts(users) && forall id | id in owners :: id in users
    ensures r.totalCount == |r.classmates|
    ensures Distinct(Ids(r.classmates))
    ensures forall id :: id in Ids(r.classmates) <==> id in owners && id != caller
    ensures forall i | 0 <= i < |r.classmates| ::
      (r.classmates[i].userId in users
       && r.classmates[i] == Info(users[r.classmates[i].userId],
                                  FirstAttended(users[r.classmates[i].userId].schools, schoolCode, graduationYear)))
  {
    var ids := Without(Dedup(owners), caller);
    WithoutDistinct(Dedup(owners), caller);
    var cs := seq(|ids|, i requires 0 <= i < |ids| && ids[i] in users =>
                    Info(users[ids[i]], FirstAttended(users[ids[i]].schools, schoolCode, graduationYear)));
    assert Ids(cs) == ids;
    SearchResult(cs, |cs|)
  }

  /**
   * Over the repository's answer, the classmates are exactly the other
   * accounts with an enrolment at that school and year, and every one is
   * shown with an enrolment.
   */
  lemma ClassmatesAreSchoolmates(users: map<UserId, User>, owners: seq<UserId>, caller: UserId, schoolCode: string, graduationYear: string)
    requires UniqueAccounts(users) && EnrolmentOwners(users, owners, schoolCode, graduationYear)
    ensures var r := Classmates(users, owners, caller, schoolCode, graduationYear);
      && (forall id :: id in Ids(r.classmates) <==> id in users && id != caller && HasAttended(users[id], schoolCode, graduationYear))
      && (forall i | 0 <= i < |r.classmates| :: r.classmates[i].school.Some?
            && Attended(r.classmates[i].school.value, schoolCode, graduationYear))
  {
    var r := Classmates(users, owners, caller, schoolCode, graduationYear);
    forall i | 0 <= i < |r.classmates|
      ensures r.classmates[i].school.Some? && Attended(r.classmates[i].school.value, schoolCode, graduationYear)
    {
      var id := r.classmates[i].userId;
      assert id in Ids(r.classmates);
      var k :| 0 <= k < |owners| && owners[k] == id;
    }
  }

  // ---------------------------------------------------------------------------
  // searchUsers

  /** The filters of a free search; each is optional. */
  datatype UserFilter = UserFilter(
    name: Option<string>,
    schoolName: Option<string>,
    graduationYear: Option<string>,
    grade: Option<string>,
    classNumber: Option<string>)

  /** A filter that is empty once trimmed counts as absent. */
  function Normalized(s: Option<string>): (r: Option<string>)
    ensures r.None? <==> s.None? || Trim(s.value) == []
    ensures r.Some? ==> r == s
  {
    if s.Some? && Trim(s.value) != [] then s else None
  }

  function NormalizedFilter(f: UserFilter): (g: UserFilter) {
    UserFilter(Normalized(f.name), Normalized(f.schoolName), Normalized(f.graduationYear),
               Normalized(f.grade), Normalized(f.classNumber))
  }

  predicate NoSchoolFilter(f: UserFilter) {
    f.schoolName.None? && f.graduationYear.None? && f.grade.None? && f.classNumber.None?
  }

  /** One enrolment row passes the enrolment filters (a missing grade never equals a given one). */
  predicate SchoolPasses(s: UserSchool, f: UserFilter) {
    (f.schoolName.None? || IsSubstring(f.schoolName.value, s.schoolName))
    && (f.graduationYear.None? || s.graduationYear == f.graduationYear.value)
    && (f.grade.None? || s.grade == f.grade)
    && (f.classNumber.None? || s.classNumber == f.classNumber)
  }

  /**
   * The `searchUsers` query: the name contains the name filter, and one
   * joined enrolment row passes the enrolment filters; an account with no
   * enrolment joins one row of nulls, which passes only when no enrolment
   * filter is given.
   */
  predicate Qualifies(u: User, f: UserFilter) {
    (f.name.None? || IsSubstring(f.name.value, u.name))
    && (if u.schools == [] then NoSchoolFilter(f)
        else exists k | 0 <= k < |u.schools| :: SchoolPasses(u.schools[k], f))
  }

  /** Without enrolment filters only the name decides, with or without enrolments. */
  lemma NameOnlySearch(u: User, f: UserFilter)
    requires NoSchoolFilter(f)
    ensures Qualifies(u, f) <==> f.name.None? || IsSubstring(f.name.value, u.name)
  {
    if u.schools != [] {
      assert SchoolPasses(u.schools[0], f);
    }
  }

  /** What the repository returns for a filter: each qualifying account once. */
  ghost predicate SearchAnswer(users: map<UserId, User>, f: UserFilter, found: seq<UserId>) {
    Distinct(found)
    && forall id :: id in found <==> id in users && Qualifies(users[id], f)
  }

  /** The enrolment a free-search hit is shown with: the account's first, if any. */
  function FirstSchool(u: User): Option<UserSchool> {
    if u.schools == [] then None else Some(u.schools[0])
  }

  /**
   * `searchUsers` over the repository's answer: the caller left out, each
   * account shown with its first enrolment; the count is the list's length.
   */
  function SearchUsers(users: map<UserId, User>, caller: UserId, found: seq<UserId>): (r: SearchResult)
    requires UniqueAccounts(users) && forall id | id in found :: id in users
    ensures r.totalCount == |r.classmates|
    ensures Ids(r.classmates) == Without(found, caller)
    ensures forall i | 0 <= i < |r.classmates| ::
      (r.classmates[i].userId in users
       && r.classmates[i] == Info(users[r.classmates[i].userId], FirstSchool(users[r.classmates[i].userId])))
  {
    var ids := Without(found, caller);
    var cs := seq(|ids|, i requires 0 <= i < |ids| && ids[i] in users => Info(users[ids[i]], FirstSchool(users[ids[i]])));
    assert Ids(cs) == ids;
    SearchResult(cs, |cs|)
  }

  /** Over the repository's answer, the hits are the other qualifying accounts, each once. */
  lemma SearchUsersFindsQualified(users: map<UserId, User>, caller: UserId, request: UserFilter, found: seq<UserId>)
    requires UniqueAccounts(users) && SearchAnswer(users, NormalizedFilter(request), found)
    ensures Distinct(Ids(SearchUsers(users, caller, found).classmates))
    ensures forall id :: id in Ids(SearchUsers(users, caller, found).classmates)
                         <==> id in users && id != caller && Qualifies(users[id], NormalizedFilter(request))
  {
    WithoutDistinct(found, caller);
  }

  /**
   * Blank filters are dropped, so a request of blanks finds every account
   * but the caller, each once.
   */
  lemma BlankSearchFindsEveryone(users: map<UserId, User>, caller: UserId, request: UserFilter, found: seq<UserId>)
    requires forall s | s in [request.name, request.schoolName, request.graduationYear, request.grade, request.classNumber]
               :: s.None? || Trim(s.value) == []
    requires UniqueAccounts(users) && SearchAnswer(users, NormalizedFilter(request), found)
    ensures Distinct(Ids(SearchUsers(users, caller, found).classmates))
    ensures forall id :: id in Ids(SearchUsers(users, caller, found).classmates) <==> id in users && id != caller
  {
    var f := NormalizedFilter(request);
    assert f == UserFilter(None, None, None, None, None) by {
      assert request.name in [request.name, request.schoolName, request.graduationYear, request.grade, request.classNumber];
      assert request.schoolName in [request.name, request.schoolName, request.graduationYear, request.grade, request.classNumber];
      assert request.graduationYear in [request.name, request.schoolName, request.graduationYear, request.grade, request.classNumber];
      assert request.grade in [request.name, request.schoolName, request.graduationYear, request.grade, request.classNumber];
      assert request.classNumber in [request.name, request.schoolName, request.graduationYear, request.grade, request.classNumber];
    }
    forall id | id in users
      ensures Qualifies(users[id], f)
    {
      NameOnlySearch(users[id], f);
    }
    WithoutDistinct(found, caller);
  }

  // ---------------------------------------------------------------------------
  // updateProfile

  /** The editable parts of a profile; an absent field is left as it is. */
  datatype ProfileUpdate = ProfileUpdate(
    name: Option<string>,
    profileImageUrl: Option<string>,
    bio: Option<string>,
    schools: Option<seq<UserSchool>>)

  /**
   * The profile after an update: each given field overwrites the stored one,
   * the enrolments are replaced only by a non-empty list, and the login id,
   * e-mail, password, role, status and times stay.
   */
  function Updated(u: User, req: ProfileUpdate): (r: User)
    ensures r.name == (if req.name.Some? then req.name.value else u.name)
    ensures r.profileImageUrl == (if req.profileImageUrl.Some? then req.profileImageUrl else u.profileImageUrl)
    ensures r.bio == (if req.bio.Some? then req.bio else u.bio)
    ensures r.schools == (if req.schools.Some? && req.schools.value != [] then req.schools.value else u.schools)
    ensures r.(name := u.name, profileImageUrl := u.profileImageUrl, bio := u.bio, schools := u.schools) == u
  {
    u.(name := if req.name.Some? then req.name.value else u.name,
       profileImageUrl := if req.profileImageUrl.Some? then req.profileImageUrl else u.profileImageUrl,
       bio := if req.bio.Some? then req.bio else u.bio,
       schools := if req.schools.Some? && req.schools.value != [] then req.schools.value else u.schools)
  }

  /** Sending the same update twice changes nothing more. */
  lemma UpdateIdempotent(u: User, req: ProfileUpdate)
    ensures Updated(Updated(u, req), req) == Updated(u, req)
  {
  }

  /** An update with no fields, or only an empty school list, leaves the profile as it was. */
  lemma EmptyUpdateKeepsProfile(u: User, schools: Option<seq<UserSchool>>)
    requires schools.None? || schools.value == []
    ensures Updated(u, ProfileUpdate(None, None, None, schools)) == u
  {
  }

  /** An update keeps the accounts' ids and e-mail addresses unique. */
  lemma UpdateKeepsAccounts(users: map<UserId, User>, userId: UserId, req: ProfileUpdate)
    requires UniqueAccounts(users) && userId in users
    ensures UniqueAccounts(users[userId := Updated(users[userId], req)])
  {
    var users' := users[userId := Updated(users[userId], req)];
    forall a, b | a in users' && b in users' && users'[a].email == users'[b].email
      ensures a == b
    {
      assert users'[a].email == users[a].email && users'[b].email == users[b].email;
    }
  }

  class ProfileService {
    const store: UserStore

    constructor(store: UserStore)
      ensures this.store == store
    {
      this.store := store;
    }

    /**
     * `updateProfile`: an unknown user fails; otherwise each given field is
     * set, and a non-empty school list is rebuilt row by row in its order;
     * the save is rejected, changing nothing, when the row no longer fits
     * its columns.
     */
    method UpdateProfile(userId: UserId, req: ProfileUpdate) returns (r: Outcome<User>)
      requires store.Valid()
      modifies store
      ensures store.Valid()
      ensures r.Fail? <==> userId !in old(store.users) || !FitsColumns(Updated(old(store.users)[userId], req))
      ensures userId !in old(store.users) ==> r == Fail(UserNotFound)
      ensures r.Fail? && userId in old(store.users) ==> r == Fail(ConstraintViolation)
      ensures r.Fail? ==> store.users == old(store.users)
      ensures r.Ok? ==>
        && r.value == Updated(old(store.users)[userId], req)
        && store.users == old(store.users)[userId := r.value]
    {
      if userId !in store.users {
        return Fail(UserNotFound);
      }
      var user := store.users[userId];
      if req.name.Some? {
        user := user.(name := req.name.value);
      }
      if req.profileImageUrl.Some? {
        user := user.(profileImageUrl := req.profileImageUrl);
      }
      if req.bio.Some? {
        user := user.(bio := req.bio);
      }
      if req.schools.Some? && req.schools.value != [] {
        var given := req.schools.value;
        var schools: seq<UserSchool> := [];
        for i := 0 to |given|
          invariant schools == given[..i]
        {
          schools := schools + [given[i]];
        }
        assert given[..|given|] == given;
        user := user.(schools := schools);
      }
      if !FitsColumns(user) {
        return Fail(ConstraintViolation);
      }
      UpdateKeepsAccounts(store.users, userId, req);
      store.users := store.users[userId := user];
      r := Ok(user);
    }
  }
}
