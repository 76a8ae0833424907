/**
 * The administrator's console: account suspension and roles, forced
 * deletion of posts and comments, the account search and the dashboard
 * counts. Every operation names the acting administrator, whose stored role
 * must be ADMIN.
 */
module Admin {
  import opened Common
  import opened Users
  import opened Posts
  import opened Board

  /**
   * The checks in front of `suspendUser`, `unsuspendUser` and
   * `changeUserRole`: the target account is looked up first, then the
   * acting account, and only then is its role checked.
   */
  function AccountGate(users: map<UserId, User>, target: UserId, adminId: UserId): (r: Option<Error>)
    ensures target !in users || adminId !in users ==> r == Some(UserNotFound)
    ensures r.None? <==> target in users && adminId in users && users[adminId].role == ADMIN
    ensures r.Some? && target in users && adminId in users ==> r == Some(Forbidden)
  {
    if target !in users || adminId !in users then Some(UserNotFound)
    else if users[adminId].role != ADMIN then Some(Forbidden)
    else None
  }

  /** The checks in front of the forced deletions: the acting account must exist and be an administrator. */
  function AdminGate(users: map<UserId, User>, adminId: UserId): (r: Option<Error>)
    ensures adminId !in users ==> r == Some(UserNotFound)
    ensures r.None? <==> adminId in users && users[adminId].role == ADMIN
    ensures r.Some? && adminId in users ==> r == Some(Forbidden)
  {
    if adminId !in users then Some(UserNotFound)
    else if users[adminId].role != ADMIN then Some(Forbidden)
    else None
  }

  /** Because the target is looked up first, an unknown target is reported even to a non-administrator. */
  lemma UnknownTargetReportedFirst(users: map<UserId, User>, target: UserId, adminId: UserId)
    requires target !in users && adminId in users && users[adminId].role == USER
    ensures AccountGate(users, target, adminId) == Some(UserNotFound)
    ensures AdminGate(users, adminId) == Some(Forbidden)
  {
  }

  /**
   * `searchUsers`: with no keyword, or one that is empty once trimmed, every
   * account; otherwise the accounts whose login id, name or e-mail contains
   * the keyword as given.
   */
  function Matching(users: map<UserId, User>, keyword: Option<string>): (r: set<UserId>)
    ensures r <= users.Keys
    ensures keyword.None? || Trim(keyword.value) == [] ==> r == users.Keys
    ensures keyword.Some? && Trim(keyword.value) != [] ==>
      forall id :: id in r <==> id in users && (IsSubstring(keyword.value, users[id].userId)
                                               || IsSubstring(keyword.value, users[id].name)
                                               || IsSubstring(keyword.value, users[id].email))
  {
    if keyword.None? || Trim(keyword.value) == [] then users.Keys
    else
      set id | id in users && (IsSubstring(keyword.value, users[id].userId)
                               || IsSubstring(keyword.value, users[id].name)
                               || IsSubstring(keyword.value, users[id].email))
  }

  /** Searching for an account's full login id finds that account. */
  lemma LoginIdFindsAccount(users: map<UserId, User>, id: UserId)
    requires UniqueAccounts(users) && id in users && Trim(id) != []
    ensures id in Matching(users, Some(id))
  {
    assert id[0..] == id;
  }

  /** The dashboard counts. */
  datatype Stats = Stats(
    totalUsers: nat,
    activeUsers: nat,
    suspendedUsers: nat,
    totalPosts: nat,
    totalComments: nat,
    todayUsers: nat,
    onlineUsers: nat)

  function WithStatus(users: map<UserId, User>, status: AccountStatus): (r: set<UserId>)
    ensures forall id :: id in r <==> id in users && users[id].status == status
  {
    set id | id in users && users[id].status == status
  }

  predicate AtOrAfter(t: Option<Time>, since: Time) {
    t.Some? && t.value >= since
  }

  /**
   * `getStats`, with the start of the day and the instant five minutes ago
   * as parameters: today's users logged in since the start of the day, and
   * online users were active in the last five minutes.
   */
  function StatsOf(users: map<UserId, User>, posts: Table<Post>, comments: Table<Comment>,
                   startOfDay: Time, fiveMinutesAgo: Time): (s: Stats)
    ensures s.totalUsers == |users| && s.totalPosts == |posts.rows| && s.totalComments == |comments.rows|
    ensures s.activeUsers == |WithStatus(users, ACTIVE)| && s.suspendedUsers == |WithStatus(users, SUSPENDED)|
    ensures s.todayUsers == |set id | id in users && AtOrAfter(users[id].lastLoginTime, startOfDay)|
    ensures s.onlineUsers == |set id | id in users && AtOrAfter(users[id].lastActivityTime, fiveMinutesAgo)|
  {
    Stats(|users|, |WithStatus(users, ACTIVE)|, |WithStatus(users, SUSPENDED)|, |posts.rows|, |comments.rows|,
          |set id | id in users && AtOrAfter(users[id].lastLoginTime, startOfDay)|,
          |set id | id in users && AtOrAfter(users[id].lastActivityTime, fiveMinutesAgo)|)
  }

  /** Every account is either active or suspended, so the two counts add up to the total. */
  lemma StatusesPartitionUsers(users: map<UserId, User>, posts: Table<Post>, comments: Table<Comment>,
                               startOfDay: Time, fiveMinutesAgo: Time)
    ensures var s := StatsOf(users, posts, comments, startOfDay, fiveMinutesAgo);
      s.activeUsers + s.suspendedUsers == s.totalUsers
      && s.todayUsers <= s.totalUsers && s.onlineUsers <= s.totalUsers
  {
    var active := WithStatus(users, ACTIVE);
    var suspended := WithStatus(users, SUSPENDED);
    assert active + suspended == users.Keys;
    assert active * suspended == {};
    var today := set id | id in users && AtOrAfter(users[id].lastLoginTime, startOfDay);
    var online := set id | id in users && AtOrAfter(users[id].lastActivityTime, fiveMinutesAgo);
    assert today <= users.Keys && online <= users.Keys;
    SubsetCardinality(today, users.Keys);
    SubsetCardinality(online, users.Keys);
  }

  /** The comments written under post `pid`, which the foreign key on `post_id` ties to it. */
  function CommentsOn(rows: map<nat, Comment>, pid: nat): (r: set<nat>)
    ensures forall x :: x in r <==> x in rows && rows[x].post == pid
  {
    set x | x in rows && rows[x].post == pid
  }

  /** A post with no comment and no like can go alone without leaving a dangling row. */
  lemma BarePostDeletedKeeps(posts: Table<Post>, comments: Table<Comment>, likes: set<Like>, id: nat)
    requires Consistent(posts, comments, likes)
    requires CommentsOn(comments.rows, id) == {} && LikesOf(likes, id) == {}
    ensures Consistent(posts.Delete({id}), comments, likes)
  {
    assert forall l | l in likes :: l in LikesOf(likes, id) <==> l.post == id;
  }

  class AdminService {
    const users: UserStore
    const board: PostService

    ghost predicate Valid()
      reads this, users, board, board.notifier
    {
      users.Valid() && board.Valid() && board.users == users
    }

    constructor(users: UserStore, board: PostService)
      requires users.Valid() && board.Valid() && board.users == users
      ensures Valid() && this.users == users && this.board == board
    {
      this.users := users;
      this.board := board;
    }

    /** `suspendUser`: after the checks, the target's status becomes SUSPENDED (an administrator may suspend itself). */
    method SuspendUser(target: UserId, adminId: UserId) returns (r: Outcome<()>)
      requires Valid()
      modifies users
      ensures Valid()
      ensures r.Ok? <==> AccountGate(old(users.users), target, adminId).None?
      ensures r.Fail? ==> r.error == AccountGate(old(users.users), target, adminId).value && users.users == old(users.users)
      ensures r.Ok? ==> users.users == old(users.users)[target := old(users.users)[target].(status := SUSPENDED)]
    {
      var gate := AccountGate(users.users, target, adminId);
      if gate.Some? {
        return Fail(gate.value);
      }
      users.users := users.users[target := users.users[target].(status := SUSPENDED)];
      r := Ok(());
    }

    /** `unsuspendUser`: after the checks, the target's status becomes ACTIVE. */
    method UnsuspendUser(target: UserId, adminId: UserId) returns (r: Outcome<()>)
      requires Valid()
      modifies users
      ensures Valid()
      ensures r.Ok? <==> AccountGate(old(users.users), target, adminId).None?
      ensures r.Fail? ==> r.error == AccountGate(old(users.users), target, adminId).value && users.users == old(users.users)
      ensures r.Ok? ==> users.users == old(users.users)[target := old(users.users)[target].(status := ACTIVE)]
    {
      var gate := AccountGate(users.users, target, adminId);
      if gate.Some? {
        return Fail(gate.value);
      }
      users.users := users.users[target := users.users[target].(status := ACTIVE)];
      r := Ok(());
    }

    /** `changeUserRole`: after the checks, the target gets the new role, even when the target is the caller. */
    method ChangeUserRole(target: UserId, newRole: Role, adminId: UserId) returns (r: Outcome<()>)
      requires Valid()
      modifies users
      ensures Valid()
      ensures r.Ok? <==> AccountGate(old(users.users), target, adminId).None?
      ensures r.Fail? ==> r.error == AccountGate(old(users.users), target, adminId).value && users.users == old(users.users)
      ensures r.Ok? ==> users.users == old(users.users)[target := old(users.users)[target].(role := newRole)]
    {
      var gate := AccountGate(users.users, target, adminId);
      if gate.Some? {
        return Fail(gate.value);
      }
      users.users := users.users[target := users.users[target].(role := newRole)];
      r := Ok(());
    }

    /**
     * `deletePost` (forced): the administrator check comes before the post
     * lookup. Only the post row is deleted: a post that still has comments
     * or likes is refused by their foreign keys.
     */
    method DeletePost(postId: nat, adminId: UserId) returns (r: Outcome<()>)
      requires Valid()
      modifies board
      ensures Valid()
      ensures AdminGate(old(users.users), adminId).Some? ==> r == Fail(AdminGate(old(users.users), adminId).value)
      ensures r.Ok? <==> AdminGate(old(users.users), adminId).None? && postId in old(board.posts.rows)
                         && CommentsOn(old(board.comments.rows), postId) == {} && LikesOf(old(board.likes), postId) == {}
      ensures AdminGate(old(users.users), adminId).None? && postId !in old(board.posts.rows) ==> r == Fail(PostNotFound)
      ensures AdminGate(old(users.users), adminId).None? && postId in old(board.posts.rows) && r.Fail? ==>
        r == Fail(ConstraintViolation)
      ensures r.Fail? ==> board.posts == old(board.posts)
      ensures r.Ok? ==> board.posts == old(board.posts).Delete({postId})
      ensures board.comments == old(board.comments) && board.likes == old(board.likes)
    {
      var gate := AdminGate(users.users, adminId);
      if gate.Some? {
        return Fail(gate.value);
      }
      if postId !in board.posts.rows {
        return Fail(PostNotFound);
      }
      if CommentsOn(board.comments.rows, postId) != {} || LikesOf(board.likes, postId) != {} {
        return Fail(ConstraintViolation);
      }
      BarePostDeletedKeeps(board.posts, board.comments, board.likes, postId);
      board.posts := board.posts.Delete({postId});
      r := Ok(());
    }

    /**
     * `deleteComment` (forced): the administrator check comes before the
     * comment lookup; the comment goes with its replies (the cascade on
     * `replies`), and the post's comment counter is left as it was.
     */
    method DeleteComment(commentId: nat, adminId: UserId) returns (r: Outcome<()>)
      requires Valid()
      modifies board
      ensures Valid()
      ensures AdminGate(old(users.users), adminId).Some? ==> r == Fail(AdminGate(old(users.users), adminId).value)
      ensures r.Ok? <==> AdminGate(old(users.users), adminId).None? && commentId in old(board.comments.rows)
      ensures AdminGate(old(users.users), adminId).None? && r.Fail? ==> r == Fail(CommentNotFound)
      ensures r.Fail? ==> board.comments == old(board.comments)
      ensures r.Ok? ==> board.comments == old(board.comments).Delete(Subtree(old(board.comments.rows), commentId))
      ensures board.posts == old(board.posts) && board.likes == old(board.likes)
    {
      var gate := AdminGate(users.users, adminId);
      if gate.Some? {
        return Fail(gate.value);
      }
      if commentId !in board.comments.rows {
        return Fail(CommentNotFound);
      }
      SubtreeDeletedKeeps(board.posts, board.comments, board.likes, commentId);
      board.comments := board.comments.Delete(Subtree(board.comments.rows, commentId));
      r := Ok(());
    }

    /** `searchUsers` (and `getAllUsers`, its keyword-less case) over the stored accounts. */
    function SearchUsers(keyword: Option<string>): (r: set<UserId>)
      reads this, users
      ensures r == Matching(users.users, keyword)
    {
      Matching(users.users, keyword)
    }

    function GetStats(startOfDay: Time, fiveMinutesAgo: Time): (s: Stats)
      reads this, users, board
      ensures s == StatsOf(users.users, board.posts, board.comments, startOfDay, fiveMinutesAgo)
    {
      StatsOf(users.users, board.posts, board.comments, startOfDay, fiveMinutesAgo)
    }
  }
}
