/**
 * Notification rows and the notification service every other service calls
 * to notify a user. The WebSocket push that follows each saved row is I/O
 * and is not modelled; the rows themselves are.
 */
module Notifications {
  import opened Common
  import opened Users

  datatype Notification = Notification(
    recipient: UserId,
    senderUserId: UserId,
    senderName: string,
    kind: string,               // the `type` column: "CHAT", "FRIEND_REQUEST", ...
    content: string,
    referenceId: Option<nat>,
    read: bool,
    createdAt: Time)

  /** What a caller asks `createAndSend` to store. */
  datatype Notice = Notice(
    senderUserId: UserId,
    senderName: string,
    kind: string,
    content: string,
    referenceId: Option<nat>)

  function Unread(recipient: UserId, n: Notice, now: Time): Notification {
    Notification(recipient, n.senderUserId, n.senderName, n.kind, n.content, n.referenceId, false, now)
  }

  /**
   * `createAndSend` on the table: a recipient that does not exist is skipped
   * without an error; otherwise exactly one unread row addressed to the
   * recipient is added and no existing row changes.
   */
  function Created(t: Table<Notification>, users: map<UserId, User>, recipient: UserId,
                   n: Notice, now: Time): (r: Table<Notification>)
    requires t.Valid()
    ensures r.Valid()
    ensures recipient !in users ==> r == t
    ensures recipient in users ==>
      && r.rows.Keys == t.rows.Keys + {t.next} && t.next !in t.rows
      && r.rows[t.next].recipient == recipient && !r.rows[t.next].read
      && r.rows[t.next].kind == n.kind && r.rows[t.next].referenceId == n.referenceId
    ensures forall id | id in t.rows :: id in r.rows && r.rows[id] == t.rows[id]
    ensures r.next == if recipient in users then t.next + 1 else t.next
  {
    if recipient in users then t.Insert(Unread(recipient, n, now)) else t
  }

  /** `createAndSend` called once per recipient, in order. */
  function CreatedForEach(t: Table<Notification>, users: map<UserId, User>,
                          recipients: seq<UserId>, n: Notice, now: Time): (r: Table<Notification>)
    requires t.Valid()
    ensures r.Valid()
    ensures forall id | id in t.rows :: id in r.rows && r.rows[id] == t.rows[id]
    ensures t.next <= r.next
    decreases |recipients|
  {
    if recipients == [] then t
    else Created(CreatedForEach(t, users, recipients[..|recipients| - 1], n, now),
                 users, recipients[|recipients| - 1], n, now)
  }

  /** The rows a fan-out added: the rows of `r` that `t` does not have. */
  function Added(t: Table<Notification>, r: Table<Notification>): set<nat> {
    r.rows.Keys - t.rows.Keys
  }

  /**
   * A fan-out reaches exactly the listed recipients that exist, one unread
   * row each (the list never repeats a user), and nobody else.
   */
  lemma {:induction false} FanOutReachesExistingRecipients(t: Table<Notification>, users: map<UserId, User>,
                                                           recipients: seq<UserId>, n: Notice, now: Time)
    requires t.Valid()
    ensures forall id | id in Added(t, CreatedForEach(t, users, recipients, n, now)) ::
      && CreatedForEach(t, users, recipients, n, now).rows[id].recipient in recipients
      && CreatedForEach(t, users, recipients, n, now).rows[id].recipient in users
      && !CreatedForEach(t, users, recipients, n, now).rows[id].read
      && CreatedForEach(t, users, recipients, n, now).rows[id].kind == n.kind
      && t.next <= id < CreatedForEach(t, users, recipients, n, now).next
    ensures forall u | u in recipients && u in users ::
      exists id | id in Added(t, CreatedForEach(t, users, recipients, n, now)) ::
        CreatedForEach(t, users, recipients, n, now).rows[id].recipient == u
    decreases |recipients|
  {
    if recipients != [] {
      var front := recipients[..|recipients| - 1];
      var last := recipients[|recipients| - 1];
      FanOutReachesExistingRecipients(t, users, front, n, now);
      var mid := CreatedForEach(t, users, front, n, now);
      var r := CreatedForEach(t, users, recipients, n, now);
      assert r == Created(mid, users, last, n, now);
      forall id | id in Added(t, r)
        ensures r.rows[id].recipient in recipients && r.rows[id].recipient in users
        ensures !r.rows[id].read && r.rows[id].kind == n.kind
        ensures t.next <= id < r.next
      {
        if id in mid.rows {
          assert id in Added(t, mid);
          assert r.rows[id] == mid.rows[id];
          assert mid.rows[id].recipient in front && mid.rows[id].recipient in users;
          var k :| 0 <= k < |front| && front[k] == mid.rows[id].recipient;
          assert recipients[k] == front[k];
        } else {
          assert id == mid.next && last in users;
        }
      }
      forall u | u in recipients && u in users
        ensures exists id | id in Added(t, r) :: r.rows[id].recipient == u
      {
        if u == last {
          assert mid.next in Added(t, r);
        } else {
          assert u in front;
          var id :| id in Added(t, mid) && mid.rows[id].recipient == u;
          assert id in Added(t, r);
        }
      }
    }
  }

  /** `countByRecipientAndReadFalse`. */
  function UnreadCount(t: Table<Notification>, u: UserId): nat {
    |set id | id in t.rows && t.rows[id].recipient == u && !t.rows[id].read|
  }

  /** The repository's `markAllAsRead`: every unread row of `u` becomes read. */
  function MarkAllRead(t: Table<Notification>, u: UserId): (r: Table<Notification>)
    ensures r.rows.Keys == t.rows.Keys && r.next == t.next
    ensures forall id | id in t.rows ::
      r.rows[id] == if t.rows[id].recipient == u then t.rows[id].(read := true) else t.rows[id]
  {
    Table(map id | id in t.rows :: if t.rows[id].recipient == u then t.rows[id].(read := true) else t.rows[id],
          t.next)
  }

  /** After marking all as read the user has nothing unread; other users keep their counts. */
  lemma MarkAllReadClearsUnread(t: Table<Notification>, u: UserId, v: UserId)
    ensures UnreadCount(MarkAllRead(t, u), u) == 0
    ensures v != u ==> UnreadCount(MarkAllRead(t, u), v) == UnreadCount(t, v)
    ensures MarkAllRead(MarkAllRead(t, u), u) == MarkAllRead(t, u)
  {
    var r := MarkAllRead(t, u);
    assert (set id | id in r.rows && r.rows[id].recipient == u && !r.rows[id].read) == {};
    if v != u {
      assert (set id | id in r.rows && r.rows[id].recipient == v && !r.rows[id].read)
          == (set id | id in t.rows && t.rows[id].recipient == v && !t.rows[id].read);
    }
  }

  class NotificationService {
    const users: UserStore
    var table: Table<Notification>

    ghost predicate Valid()
      reads this
    {
      table.Valid()
    }

    constructor(users: UserStore)
      ensures Valid() && this.users == users && table.rows == map[]
    {
      this.users := users;
      table := EmptyTable();
    }

    /** `createAndSend`. */
    method CreateAndSend(recipient: UserId, n: Notice, now: Time)
      requires Valid()
      modifies this
      ensures Valid()
      ensures table == Created(old(table), users.users, recipient, n, now)
    {
      table := Created(table, users.users, recipient, n, now);
    }

    /** A loop of `createAndSend` calls, one per listed recipient. */
    method CreateAndSendEach(recipients: seq<UserId>, n: Notice, now: Time)
      requires Valid()
      modifies this
      ensures Valid()
      ensures table == CreatedForEach(old(table), users.users, recipients, n, now)
    {
      var i := 0;
      while i < |recipients|
        invariant i <= |recipients|
        invariant Valid()
        invariant table == CreatedForEach(old(table), users.users, recipients[..i], n, now)
      {
        assert recipients[..i + 1][..i] == recipients[..i];
        CreateAndSend(recipients[i], n, now);
        i := i + 1;
      }
      assert recipients[..i] == recipients;
    }

    /**
     * `getNotifications`: the user's 50 newest notifications, newest first;
     * any of the user's notifications left out is older than all listed.
     */
    method GetNotifications(userId: UserId) returns (r: Outcome<seq<nat>>)
      requires Valid()
      ensures r.Fail? <==> userId !in users.users
      ensures r.Fail? ==> r.error == UserNotFound
      ensures r.Ok? ==>
        && |r.value| <= 50
        && NewestFirstOrder(r.value)
        && (forall i | 0 <= i < |r.value| :: r.value[i] in table.rows && table.rows[r.value[i]].recipient == userId)
        && (forall id | id in table.rows && table.rows[id].recipient == userId && id !in r.value ::
              |r.value| == 50 && forall i | 0 <= i < |r.value| :: id < r.value[i])
    {
      if userId !in users.users {
        return Fail(UserNotFound);
      }
      var ids := SelectNewest(table, (n: Notification) => n.recipient == userId, Some(50));
      r := Ok(ids);
    }

    /** `getUnreadCount`. */
    method GetUnreadCount(userId: UserId) returns (r: Outcome<nat>)
      ensures r.Fail? <==> userId !in users.users
      ensures r.Fail? ==> r.error == UserNotFound
      ensures r.Ok? ==> r.value == UnreadCount(table, userId)
    {
      if userId !in users.users {
        return Fail(UserNotFound);
      }
      r := Ok(UnreadCount(table, userId));
    }

    /** `markAsRead`: only the recipient may mark a notification; the account itself is not looked up. */
    method MarkAsRead(id: nat, userId: UserId) returns (r: Outcome<()>)
      requires Valid()
      modifies this
      ensures Valid()
      ensures id !in old(table.rows) ==> r == Fail(NotificationNotFound)
      ensures id in old(table.rows) && old(table.rows)[id].recipient != userId ==> r == Fail(Forbidden)
      ensures r.Fail? ==> table == old(table)
      ensures r.Ok? ==>
        && id in old(table.rows) && old(table.rows)[id].recipient == userId
        && table == old(table).Update(id, old(table.rows)[id].(read := true))
    {
      if id !in table.rows {
        return Fail(NotificationNotFound);
      }
      if table.rows[id].recipient != userId {
        return Fail(Forbidden);
      }
      table := table.Update(id, table.rows[id].(read := true));
      r := Ok(());
    }

    /** `markAllAsRead`. */
    method MarkAllAsRead(userId: UserId) returns (r: Outcome<()>)
      requires Valid()
      modifies this
      ensures Valid()
      ensures r.Fail? <==> userId !in users.users
      ensures r.Fail? ==> r.error == UserNotFound && table == old(table)
      ensures r.Ok? ==> table == MarkAllRead(old(table), userId) && UnreadCount(table, userId) == 0
    {
      if userId !in users.users {
        return Fail(UserNotFound);
      }
      MarkAllReadClearsUnread(table, userId, userId);
      table := MarkAllRead(table, userId);
      r := Ok(());
    }
  }
}
