/**
 * The post service: posts, their likes and comment threads, and the
 * counters kept on each post. Every call runs in one transaction; a failed
 * call leaves every table as it was.
 */
module Board {
  import opened Common
  import opened Users
  import opened Notifications
  import opened Posts

  /**
   * What the post, comment and like tables keep true together: every reply
   * hangs under an older stored comment, every comment and like belongs to a
   * stored post, every row fits its columns, and a post's like counter is the
   * number of its like rows.
   */
  ghost predicate Consistent(posts: Table<Post>, comments: Table<Comment>, likes: set<Like>) {
    && posts.Valid() && comments.Valid()
    && Forest(comments.rows)
    && (forall c | c in comments.rows ::
          comments.rows[c].post in posts.rows && |comments.rows[c].content| <= MAX_COMMENT_CONTENT)
    && (forall l | l in likes :: l.post in posts.rows)
    && (forall id | id in posts.rows ::
          PostFits(posts.rows[id]) && posts.rows[id].likeCount == |LikesOf(likes, id)|)
  }

  /** A new post starts with no likes, so its zero counter is right. */
  lemma PostAddedKeeps(posts: Table<Post>, comments: Table<Comment>, likes: set<Like>, p: Post)
    requires Consistent(posts, comments, likes)
    requires p.likeCount == 0 && PostFits(p)
    ensures Consistent(posts.Insert(p), comments, likes)
  {
    assert LikesOf(likes, posts.next) == {};
  }

  /** Rewriting a post's row with the same like counter keeps the tables consistent. */
  lemma PostEditedKeeps(posts: Table<Post>, comments: Table<Comment>, likes: set<Like>, id: nat, p: Post)
    requires Consistent(posts, comments, likes) && id in posts.rows
    requires p.likeCount == posts.rows[id].likeCount && PostFits(p)
    ensures Consistent(posts.Update(id, p), comments, likes)
  {
  }

  /**
   * `toggleLike` on the rows: the caller's like row on the post appears or
   * disappears, and the post's like counter moves by one in the same
   * direction; nothing else changes.
   */
  function Toggled(posts: Table<Post>, likes: set<Like>, id: nat, u: UserId): (r: (Table<Post>, set<Like>))
    requires id in posts.rows
    ensures r.0.rows.Keys == posts.rows.Keys && r.0.next == posts.next
    ensures forall j | j in posts.rows && j != id :: r.0.rows[j] == posts.rows[j]
    ensures Like(id, u) in r.1 <==> Like(id, u) !in likes
    ensures forall l | l != Like(id, u) :: l in r.1 <==> l in likes
    ensures r.0.rows[id] == posts.rows[id].(likeCount := r.0.rows[id].likeCount)
    ensures r.0.rows[id].likeCount == posts.rows[id].likeCount + (if Like(id, u) in likes then -1 else 1)
  {
    var p := posts.rows[id];
    if Like(id, u) in likes then (posts.Update(id, p.(likeCount := p.likeCount - 1)), likes - {Like(id, u)})
    else (posts.Update(id, p.(likeCount := p.likeCount + 1)), likes + {Like(id, u)})
  }

  /** Toggling twice restores the like rows and the counter. */
  lemma ToggleTwiceRestores(posts: Table<Post>, likes: set<Like>, id: nat, u: UserId)
    requires id in posts.rows
    ensures Toggled(Toggled(posts, likes, id, u).0, Toggled(posts, likes, id, u).1, id, u) == (posts, likes)
  {
    var (posts1, likes1) := Toggled(posts, likes, id, u);
    var (posts2, likes2) := Toggled(posts1, likes1, id, u);
    assert likes2 == likes;
    assert posts2.rows == posts.rows;
  }

  /** A toggle keeps every like counter equal to the number of like rows. */
  lemma ToggleKeeps(posts: Table<Post>, comments: Table<Comment>, likes: set<Like>, id: nat, u: UserId)
    requires Consistent(posts, comments, likes) && id in posts.rows
    ensures Consistent(Toggled(posts, likes, id, u).0, comments, Toggled(posts, likes, id, u).1)
  {
    var (posts1, likes1) := Toggled(posts, likes, id, u);
    var l := Like(id, u);
    if l in likes {
      assert LikesOf(likes1, id) == LikesOf(likes, id) - {l};
    } else {
      assert LikesOf(likes1, id) == LikesOf(likes, id) + {l};
    }
    forall j | j in posts.rows && j != id
      ensures posts1.rows[j].likeCount == |LikesOf(likes1, j)|
    {
      assert LikesOf(likes1, j) == LikesOf(likes, j);
    }
  }

  /** A new comment on a stored post, replying to a stored comment or to none. */
  lemma CommentAddedKeeps(posts: Table<Post>, comments: Table<Comment>, likes: set<Like>, c: Comment)
    requires Consistent(posts, comments, likes)
    requires c.post in posts.rows && |c.content| <= MAX_COMMENT_CONTENT
    requires c.parent.Some? ==> c.parent.value in comments.rows
    ensures Consistent(posts, comments.Insert(c), likes)
  {
  }

  /** Editing a comment's text keeps its post and parent. */
  lemma CommentEditedKeeps(posts: Table<Post>, comments: Table<Comment>, likes: set<Like>, id: nat, c: Comment)
    requires Consistent(posts, comments, likes) && id in comments.rows
    requires c.post == comments.rows[id].post && c.parent == comments.rows[id].parent
    requires |c.content| <= MAX_COMMENT_CONTENT
    ensures Consistent(posts, comments.Update(id, c), likes)
  {
    var rows := comments.Update(id, c).rows;
    assert rows == comments.rows[id := c];
    forall x | x in rows
      ensures rows[x].post == comments.rows[x].post && rows[x].parent == comments.rows[x].parent
      ensures |rows[x].content| <= MAX_COMMENT_CONTENT
    {
    }
    assert Forest(rows);
  }

  lemma SubtreeDeletedKeeps(posts: Table<Post>, comments: Table<Comment>, likes: set<Like>, id: nat)
    requires Consistent(posts, comments, likes)
    ensures Consistent(posts, comments.Delete(Subtree(comments.rows, id)), likes)
  {
    SubtreeRemovalKeepsForest(comments.rows, id);
    assert comments.Delete(Subtree(comments.rows, id)).rows == comments.rows - Subtree(comments.rows, id);
  }

  /** Removing a post with its swept comments and its likes leaves no dangling row. */
  lemma PostDeletedKeeps(posts: Table<Post>, comments: Table<Comment>, likes: set<Like>, id: nat)
    requires Consistent(posts, comments, likes)
    ensures Consistent(posts.Delete({id}), comments.Delete(Swept(comments.rows, id)), likes - LikesOf(likes, id))
  {
    SweepKeepsForest(comments.rows, id);
    assert comments.Delete(Swept(comments.rows, id)).rows == comments.rows - Swept(comments.rows, id);
    var rest := likes - LikesOf(likes, id);
    forall j | j in posts.rows && j != id
      ensures LikesOf(rest, j) == LikesOf(likes, j)
    {
    }
  }

  /** The post's comment counter moved by `delta`; the rest of the row and the table unchanged. */
  function Recounted(posts: Table<Post>, pid: nat, delta: int): (r: Table<Post>)
    requires pid in posts.rows
    ensures r.rows.Keys == posts.rows.Keys && r.next == posts.next
    ensures forall j | j in posts.rows && j != pid :: r.rows[j] == posts.rows[j]
    ensures r.rows[pid] == posts.rows[pid].(commentCount := posts.rows[pid].commentCount + delta)
  {
    posts.Update(pid, posts.rows[pid].(commentCount := posts.rows[pid].commentCount + delta))
  }

  lemma RecountKeeps(posts: Table<Post>, comments: Table<Comment>, likes: set<Like>, pid: nat, delta: int)
    requires Consistent(posts, comments, likes) && pid in posts.rows
    ensures Consistent(Recounted(posts, pid, delta), comments, likes)
  {
  }

  /** The post table once comment `id` and its replies are gone: its post's counter drops by the subtree's size. */
  function Unthreaded(posts: Table<Post>, rows: map<nat, Comment>, id: nat): (r: Table<Post>)
    requires id in rows && rows[id].post in posts.rows
  {
    Recounted(posts, rows[id].post, -1 - |Descendants(rows, id)|)
  }

  /** Removing a comment's subtree and lowering its post's counter by the subtree's size keeps the rows consistent. */
  lemma ThreadRemovedKeeps(posts: Table<Post>, comments: Table<Comment>, likes: set<Like>, id: nat)
    requires Consistent(posts, comments, likes) && id in comments.rows
    ensures Consistent(Unthreaded(posts, comments.rows, id), comments.Delete(Subtree(comments.rows, id)), likes)
  {
    SubtreeDeletedKeeps(posts, comments, likes, id);
    RecountKeeps(posts, comments.Delete(Subtree(comments.rows, id)), likes, comments.rows[id].post, -1 - |Descendants(comments.rows, id)|);
  }

  /**
   * `deleteComment` on the rows: the comment and every reply below it are
   * removed, and its post's counter drops by one plus `countAllReplies`.
   */
  method RemoveThread(posts: Table<Post>, comments: Table<Comment>, id: nat)
    returns (posts': Table<Post>, comments': Table<Comment>)
    requires comments.Valid() && Forest(comments.rows)
    requires id in comments.rows && comments.rows[id].post in posts.rows
    ensures comments' == comments.Delete(Subtree(comments.rows, id))
    ensures posts' == Unthreaded(posts, comments.rows, id)
  {
    var replies := CountAllReplies(comments, id);
    comments' := comments.Delete(Subtree(comments.rows, id));
    posts' := Recounted(posts, comments.rows[id].post, -1 - replies as int);
  }

  /** `addComment` on the rows: the comment is saved and its post's counter rises by one. */
  method SaveComment(posts: Table<Post>, comments: Table<Comment>, likes: set<Like>, c: Comment)
    returns (posts': Table<Post>, comments': Table<Comment>)
    requires Consistent(posts, comments, likes)
    requires c.post in posts.rows && |c.content| <= MAX_COMMENT_CONTENT
    requires c.parent.Some? ==> c.parent.value in comments.rows
    ensures Consistent(posts', comments', likes)
    ensures comments' == comments.Insert(c)
    ensures posts' == Recounted(posts, c.post, 1)
  {
    var p := posts.rows[c.post];
    comments' := comments.Insert(c);
    posts' := Recounted(posts, c.post, 1);
    CommentAddedKeeps(posts, comments, likes, c);
    RecountKeeps(posts, comments', likes, c.post, 1);
  }

  /** The fields of a `CreateCommentRequest`. */
  datatype CommentRequest = CommentRequest(
    content: string,
    parentCommentId: Option<nat>,
    mentionedUserIds: Option<seq<UserId>>)

  /** `findByUserIdIn`: the listed users that exist, when the list is non-null and non-empty. */
  function Mentioned(users: map<UserId, User>, ids: Option<seq<UserId>>): (r: set<UserId>)
    ensures forall u :: u in r <==> ids.Some? && u in ids.value && u in users
  {
    if ids.Some? && ids.value != [] then set u | u in ids.value && u in users else {}
  }

  class PostService {
    const users: UserStore
    const notifier: NotificationService
    var posts: Table<Post>
    var comments: Table<Comment>
    var likes: set<Like>

    ghost predicate Valid()
      reads this, notifier
    {
      Consistent(posts, comments, likes) && notifier.Valid() && notifier.users == users
    }

    /** The identity column of `posts` starts at 1. */
    constructor(users: UserStore, notifier: NotificationService)
      requires notifier.Valid() && notifier.users == users
      ensures Valid() && this.users == users && this.notifier == notifier
      ensures posts.rows == map[] && comments.rows == map[] && likes == {}
    {
      this.users := users;
      this.notifier := notifier;
      posts := Table(map[], 1);
      comments := EmptyTable();
      likes := {};
    }

    /**
     * `createPost`: the author must exist; the drafted post (defaults filled
     * in) is saved unless it does not fit its columns.
     */
    method CreatePost(u: UserId, req: PostRequest) returns (r: Outcome<nat>)
      requires Valid()
      modifies this
      ensures Valid()
      ensures u !in users.users ==> r == Fail(UserNotFound)
      ensures u in users.users && Drafted(users.users[u], req).Fail? ==> r == Fail(Invalid)
      ensures r.Ok? <==> u in users.users && Drafted(users.users[u], req).Ok? && PostFits(Drafted(users.users[u], req).value)
      ensures u in users.users && Drafted(users.users[u], req).Ok? && !PostFits(Drafted(users.users[u], req).value) ==>
        r == Fail(ConstraintViolation)
      ensures r.Fail? ==> posts == old(posts)
      ensures r.Ok? ==> r.value == old(posts.next) && posts == old(posts).Insert(Drafted(users.users[u], req).value)
      ensures comments == old(comments) && likes == old(likes)
    {
      if u !in users.users {
        return Fail(UserNotFound);
      }
      var draft := Draft(users.users[u], req);
      if draft.Fail? {
        return Fail(draft.error);
      }
      if !PostFits(draft.value) {
        return Fail(ConstraintViolation);
      }
      PostAddedKeeps(posts, comments, likes, draft.value);
      r := Ok(posts.next);
      posts := posts.Insert(draft.value);
    }

    /** `getPost`: every read of a stored post raises its view counter by one. */
    method GetPost(id: nat, viewer: Option<UserId>) returns (r: Outcome<PostView>)
      requires Valid()
      modifies this
      ensures Valid()
      ensures r.Fail? <==> id !in old(posts.rows)
      ensures r.Fail? ==> r.error == PostNotFound && posts == old(posts)
      ensures r.Ok? ==>
        && posts == old(posts).Update(id, old(posts.rows[id]).(viewCount := old(posts.rows[id]).viewCount + 1))
        && r.value == ViewOf(id, posts.rows[id], users.users, likes, viewer)
      ensures comments == old(comments) && likes == old(likes)
    {
      if id !in posts.rows {
        return Fail(PostNotFound);
      }
      var p := posts.rows[id];
      PostEditedKeeps(posts, comments, likes, id, p.(viewCount := p.viewCount + 1));
      posts := posts.Update(id, p.(viewCount := p.viewCount + 1));
      r := Ok(ViewOf(id, posts.rows[id], users.users, likes, viewer));
    }

    /**
     * `updatePost`: only the author may edit; the content is replaced, and
     * the image list only when the request carries one. The save fails when
     * the new content or a new image URL is too long for its column; the
     * rest of the row already fits.
     */
    method UpdatePost(id: nat, u: UserId, content: string, imageUrls: Option<seq<string>>) returns (r: Outcome<PostView>)
      requires Valid()
      modifies this
      ensures Valid()
      ensures id !in old(posts.rows) ==> r == Fail(PostNotFound)
      ensures id in old(posts.rows) && old(posts.rows[id]).author != u ==> r == Fail(Forbidden)
      ensures r.Ok? <==>
        && id in old(posts.rows) && old(posts.rows[id]).author == u && |content| <= MAX_POST_CONTENT
        && (imageUrls.Some? ==> forall i | 0 <= i < |imageUrls.value| :: |imageUrls.value[i]| <= DEFAULT_COLUMN_LENGTH)
      ensures r.Ok? <==>
        && id in old(posts.rows) && old(posts.rows[id]).author == u
        && PostFits(old(posts.rows[id]).(content := content,
                                         imageUrls := if imageUrls.Some? then imageUrls.value else old(posts.rows[id]).imageUrls))
      ensures id in old(posts.rows) && old(posts.rows[id]).author == u && r.Fail? ==> r == Fail(ConstraintViolation)
      ensures r.Fail? ==> posts == old(posts)
      ensures r.Ok? ==>
        var p := old(posts.rows[id]);
        && posts == old(posts).Update(id, p.(content := content,
                                             imageUrls := if imageUrls.Some? then imageUrls.value else p.imageUrls))
        && r.value == ViewOf(id, posts.rows[id], users.users, likes, Some(u))
      ensures comments == old(comments) && likes == old(likes)
    {
      if id !in posts.rows {
        return Fail(PostNotFound);
      }
      var p := posts.rows[id];
      if p.author != u {
        return Fail(Forbidden);
      }
      var edited := p.(content := content, imageUrls := if imageUrls.Some? then imageUrls.value else p.imageUrls);
      if !PostFits(edited) {
        return Fail(ConstraintViolation);
      }
      PostEditedKeeps(posts, comments, likes, id, edited);
      posts := posts.Update(id, edited);
      r := Ok(ViewOf(id, edited, users.users, likes, Some(u)));
    }

    /**
     * `deletePost`: only the author may delete; the post's comments (with
     * every reply below them) and its likes go with it.
     */
    method DeletePost(id: nat, u: UserId) returns (r: Outcome<()>)
      requires Valid()
      modifies this
      ensures Valid()
      ensures id !in old(posts.rows) ==> r == Fail(PostNotFound)
      ensures r.Ok? <==> id in old(posts.rows) && old(posts.rows[id]).author == u
      ensures r.Fail? && id in old(posts.rows) ==> r == Fail(Forbidden)
      ensures r.Fail? ==> posts == old(posts) && comments == old(comments) && likes == old(likes)
      ensures r.Ok? ==>
        && posts == old(posts).Delete({id})
        && comments == old(comments).Delete(Swept(old(comments.rows), id))
        && likes == old(likes) - LikesOf(old(likes), id)
    {
      if id !in posts.rows {
        return Fail(PostNotFound);
      }
      if posts.rows[id].author != u {
        return Fail(Forbidden);
      }
      PostDeletedKeeps(posts, comments, likes, id);
      comments := comments.Delete(Swept(comments.rows, id));
      likes := likes - LikesOf(likes, id);
      posts := posts.Delete({id});
      r := Ok(());
    }

    /**
     * `toggleLike`: the post, then the user, must exist. A like is removed if
     * present and added otherwise; adding one notifies the post's author
     * unless the author is the caller.
     */
    method ToggleLike(id: nat, u: UserId, now: Time) returns (r: Outcome<()>)
      requires Valid()
      modifies this, notifier
      ensures Valid()
      ensures id !in old(posts.rows) ==> r == Fail(PostNotFound)
      ensures id in old(posts.rows) && u !in users.users ==> r == Fail(UserNotFound)
      ensures r.Ok? <==> id in old(posts.rows) && u in users.users
      ensures r.Fail? ==> posts == old(posts) && likes == old(likes)
      ensures r.Ok? ==> (posts, likes) == Toggled(old(posts), old(likes), id, u)
      ensures r.Ok? && Like(id, u) !in old(likes) && old(posts.rows[id]).author != u ==>
        var name := users.users[u].name;
        notifier.table == Created(old(notifier.table), users.users, old(posts.rows[id]).author,
                                  Notice(u, name, "LIKE", name + "님이 게시글에 좋아요를 눌렀습니다", Some(id)), now)
      ensures !(r.Ok? && Like(id, u) !in old(likes) && old(posts.rows[id]).author != u) ==>
        notifier.table == old(notifier.table)
      ensures comments == old(comments)
    {
      if id !in posts.rows {
        return Fail(PostNotFound);
      }
      if u !in users.users {
        return Fail(UserNotFound);
      }
      var author := posts.rows[id].author;
      var liking := Like(id, u) !in likes;
      ToggleKeeps(posts, comments, likes, id, u);
      var (posts1, likes1) := Toggled(posts, likes, id, u);
      posts := posts1;
      likes := likes1;
      if liking && author != u {
        var name := users.users[u].name;
        Notify(author, Notice(u, name, "LIKE", name + "님이 게시글에 좋아요를 눌렀습니다", Some(id)), now);
      }
      r := Ok(());
    }

    /**
     * `addComment`: the post, the user and (when given) the parent comment
     * must exist; the parent may belong to any post. The comment is saved
     * with the mentioned users that exist, the post's comment counter rises
     * by one, and the post's author is notified unless they are the caller.
     */
    method AddComment(postId: nat, u: UserId, req: CommentRequest, now: Time) returns (r: Outcome<nat>)
      requires Valid()
      modifies this, notifier
      ensures Valid()
      ensures postId !in old(posts.rows) ==> r == Fail(PostNotFound)
      ensures postId in old(posts.rows) && u !in users.users ==> r == Fail(UserNotFound)
      ensures postId in old(posts.rows) && u in users.users
              && req.parentCommentId.Some? && req.parentCommentId.value !in old(comments.rows) ==>
        r == Fail(ParentCommentNotFound)
      ensures r.Ok? <==>
        && postId in old(posts.rows) && u in users.users
        && (req.parentCommentId.Some? ==> req.parentCommentId.value in old(comments.rows))
        && |req.content| <= MAX_COMMENT_CONTENT
      ensures r.Fail? ==> posts == old(posts) && comments == old(comments) && notifier.table == old(notifier.table)
      ensures r.Ok? ==>
        && r.value == old(comments.next)
        && comments == old(comments).Insert(
             Comment(postId, u, req.content, req.parentCommentId, Mentioned(users.users, req.mentionedUserIds), now, None))
        && posts == Recounted(old(posts), postId, 1)
      ensures r.Ok? && old(posts.rows[postId]).author != u ==>
        var name := users.users[u].name;
        notifier.table == Created(old(notifier.table), users.users, old(posts.rows[postId]).author,
                                  Notice(u, name, "COMMENT", name + "님이 댓글을 남겼습니다", Some(postId)), now)
      ensures r.Ok? && old(posts.rows[postId]).author == u ==> notifier.table == old(notifier.table)
      ensures likes == old(likes)
    {
      if postId !in posts.rows {
        return Fail(PostNotFound);
      }
      if u !in users.users {
        return Fail(UserNotFound);
      }
      if req.parentCommentId.Some? && req.parentCommentId.value !in comments.rows {
        return Fail(ParentCommentNotFound);
      }
      if |req.content| > MAX_COMMENT_CONTENT {
        return Fail(ConstraintViolation);
      }
      var c := Comment(postId, u, req.content, req.parentCommentId, Mentioned(users.users, req.mentionedUserIds), now, None);
      var author := posts.rows[postId].author;
      var id := PutComment(c);
      r := Ok(id);
      if author != u {
        var name := users.users[u].name;
        Notify(author, Notice(u, name, "COMMENT", name + "님이 댓글을 남겼습니다", Some(postId)), now);
      }
    }

    /** Saves a comment and raises its post's comment counter. */
    method PutComment(c: Comment) returns (id: nat)
      requires Valid()
      requires c.post in posts.rows && |c.content| <= MAX_COMMENT_CONTENT
      requires c.parent.Some? ==> c.parent.value in comments.rows
      modifies this
      ensures Valid()
      ensures id == old(comments.next) && comments == old(comments).Insert(c)
      ensures posts == Recounted(old(posts), c.post, 1) && likes == old(likes)
    {
      id := comments.next;
      posts, comments := SaveComment(posts, comments, likes, c);
    }

    /** `notificationService.createAndSend`; the post tables are untouched. */
    method Notify(recipient: UserId, n: Notice, now: Time)
      requires Valid()
      modifies notifier
      ensures Valid()
      ensures notifier.table == Created(old(notifier.table), users.users, recipient, n, now)
    {
      notifier.CreateAndSend(recipient, n, now);
    }

    /** `getComments`: the post's top-level comments, oldest first. */
    method GetComments(postId: nat) returns (r: Outcome<seq<nat>>)
      requires Valid()
      ensures r.Fail? <==> postId !in posts.rows
      ensures r.Fail? ==> r.error == PostNotFound
      ensures r.Ok? ==> OldestFirstOrder(r.value)
      ensures r.Ok? ==> forall id :: id in r.value <==>
        id in comments.rows && comments.rows[id].post == postId && comments.rows[id].parent.None?
    {
      if postId !in posts.rows {
        return Fail(PostNotFound);
      }
      var ids := SelectOldest(comments, (c: Comment) => c.post == postId && c.parent.None?);
      r := Ok(ids);
    }

    /** `updateComment`: only the author may edit; the edit stamps `updatedAt`. */
    method UpdateComment(id: nat, u: UserId, content: string, now: Time) returns (r: Outcome<()>)
      requires Valid()
      modifies this
      ensures Valid()
      ensures id !in old(comments.rows) ==> r == Fail(CommentNotFound)
      ensures id in old(comments.rows) && old(comments.rows[id]).author != u ==> r == Fail(Forbidden)
      ensures r.Ok? <==> id in old(comments.rows) && old(comments.rows[id]).author == u && |content| <= MAX_COMMENT_CONTENT
      ensures r.Fail? ==> comments == old(comments)
      ensures r.Ok? ==> comments == old(comments).Update(id, old(comments.rows[id]).(content := content, updatedAt := Some(now)))
      ensures posts == old(posts) && likes == old(likes)
    {
      if id !in comments.rows {
        return Fail(CommentNotFound);
      }
      var c := comments.rows[id];
      if c.author != u {
        return Fail(Forbidden);
      }
      if |content| > MAX_COMMENT_CONTENT {
        return Fail(ConstraintViolation);
      }
      CommentEditedKeeps(posts, comments, likes, id, c.(content := content, updatedAt := Some(now)));
      comments := comments.Update(id, c.(content := content, updatedAt := Some(now)));
      r := Ok(());
    }

    /**
     * `deleteComment`: only the author may delete. The comment goes with
     * every reply below it, and its post's comment counter drops by one plus
     * `countAllReplies`, the number of those replies.
     */
    method DeleteComment(id: nat, u: UserId) returns (r: Outcome<()>)
      requires Valid()
      modifies this
      ensures Valid()
      ensures id !in old(comments.rows) ==> r == Fail(CommentNotFound)
      ensures r.Ok? <==> id in old(comments.rows) && old(comments.rows[id]).author == u
      ensures r.Fail? && id in old(comments.rows) ==> r == Fail(Forbidden)
      ensures r.Fail? ==> posts == old(posts) && comments == old(comments)
      ensures r.Ok? ==>
        && comments == old(comments).Delete(Subtree(old(comments.rows), id))
        && posts == Unthreaded(old(posts), old(comments.rows), id)
      ensures likes == old(likes)
    {
      if id !in comments.rows {
        return Fail(CommentNotFound);
      }
      if comments.rows[id].author != u {
        return Fail(Forbidden);
      }
      ThreadRemovedKeeps(posts, comments, likes, id);
      posts, comments := RemoveThread(posts, comments, id);
      r := Ok(());
    }

    /** The response mapping over a list of stored post ids. */
    function Views(ids: seq<nat>, viewer: Option<UserId>): (vs: seq<PostView>)
      reads this, users
      requires forall i | 0 <= i < |ids| :: ids[i] in posts.rows
      ensures |vs| == |ids|
      ensures forall i | 0 <= i < |ids| :: vs[i] == ViewOf(ids[i], posts.rows[ids[i]], users.users, likes, viewer)
    {
      seq(|ids|, i reads this, users requires 0 <= i < |ids| && ids[i] in posts.rows =>
        ViewOf(ids[i], posts.rows[ids[i]], users.users, likes, viewer))
    }

    /**
     * `getPosts`: the user must exist; a user without enrolments sees
     * nothing. Otherwise the board is the school of the first matching
     * enrolment, and the posts filed under it that the filter lists are
     * returned newest first.
     */
    method GetPosts(u: UserId, filter: string, reqSchoolName: Option<string>, reqGraduationYear: Option<string>,
                    grade: Option<string>, classNumber: Option<string>) returns (r: Outcome<seq<PostView>>)
      requires Valid()
      ensures r.Fail? <==> u !in users.users
      ensures r.Fail? ==> r.error == UserNotFound
      ensures r.Ok? && users.users[u].schools == [] ==> r.value == []
      ensures r.Ok? && users.users[u].schools != [] ==>
        var matching := MatchingSchools(users.users[u].schools, reqSchoolName, reqGraduationYear);
        var board := matching[0].schoolName;
        && (forall i, j | 0 <= i < j < |r.value| :: r.value[i].id > r.value[j].id)
        && (forall i | 0 <= i < |r.value| ::
              r.value[i].id in posts.rows && r.value[i] == ViewOf(r.value[i].id, posts.rows[r.value[i].id], users.users, likes, Some(u)))
        && (forall id :: (exists i | 0 <= i < |r.value| :: r.value[i].id == id) <==>
              id in posts.rows && posts.rows[id].schoolName == Some(board)
              && Listed(posts.rows[id], filter, matching, grade, classNumber))
    {
      if u !in users.users {
        return Fail(UserNotFound);
      }
      var schools := users.users[u].schools;
      if schools == [] {
        return Ok([]);
      }
      var matching := FindAllMatchingSchools(schools, reqSchoolName, reqGraduationYear);
      var board := matching[0].schoolName;
      var ids := SelectNewest(posts, (p: Post) => p.schoolName == Some(board) && Listed(p, filter, matching, grade, classNumber), None);
      var vs := Views(ids, Some(u));
      forall id | id in posts.rows && posts.rows[id].schoolName == Some(board) && Listed(posts.rows[id], filter, matching, grade, classNumber)
        ensures exists i | 0 <= i < |vs| :: vs[i].id == id
      {
        var i :| 0 <= i < |ids| && ids[i] == id;
        assert vs[i].id == id;
      }
      r := Ok(vs);
    }

    /**
     * `getNewPostCounts`: for each tab, how many posts of the board the tab
     * lists (with the access check) have an id above that tab's last seen
     * id; all zero for a user without enrolments.
     */
    method GetNewPostCounts(u: UserId, lastSeenAll: int, lastSeenMyGrade: int, lastSeenMyClass: int,
                            reqSchoolName: Option<string>, reqGraduationYear: Option<string>) returns (r: Outcome<NewCounts>)
      requires Valid()
      ensures r.Fail? <==> u !in users.users
      ensures r.Fail? ==> r.error == UserNotFound
      ensures r.Ok? && users.users[u].schools == [] ==> r.value == NewCounts(0, 0, 0)
      ensures r.Ok? && users.users[u].schools != [] ==>
        var matching := MatchingSchools(users.users[u].schools, reqSchoolName, reqGraduationYear);
        var board := matching[0].schoolName;
        && r.value.all == |NewOnTab(posts.rows, board, matching, "all", lastSeenAll)|
        && r.value.myGrade == |NewOnTab(posts.rows, board, matching, "myGrade", lastSeenMyGrade)|
        && r.value.myClass == |NewOnTab(posts.rows, board, matching, "myClass", lastSeenMyClass)|
    {
      if u !in users.users {
        return Fail(UserNotFound);
      }
      var schools := users.users[u].schools;
      if schools == [] {
        return Ok(NewCounts(0, 0, 0));
      }
      var matching := FindAllMatchingSchools(schools, reqSchoolName, reqGraduationYear);
      var board := matching[0].schoolName;
      r := Ok(NewCounts(|NewOnTab(posts.rows, board, matching, "all", lastSeenAll)|,
                        |NewOnTab(posts.rows, board, matching, "myGrade", lastSeenMyGrade)|,
                        |NewOnTab(posts.rows, board, matching, "myClass", lastSeenMyClass)|));
    }
  }
}
