/**
 * Private notes ("쪽지") between two users: each side can remove a note from
 * its own box independently, and the receiver's first read stamps `readAt`.
 */
module Notes {
  import opened Common
  import opened Users
  import opened Notifications

  /** The `content` column holds at most 2000 characters. */
  const MAX_CONTENT: nat := 2000

  datatype Note = Note(
    sender: UserId,
    receiver: UserId,
    content: string,
    sentAt: Time,
    readAt: Option<Time>,
    deletedBySender: bool,
    deletedByReceiver: bool)

  /** A note as the service stores it: unread and in both boxes. */
  function NewNote(sender: UserId, receiver: UserId, content: string, now: Time): (n: Note)
    ensures n.readAt.None? && !n.deletedBySender && !n.deletedByReceiver
    ensures n.sender == sender && n.receiver == receiver && n.content == content
  {
    Note(sender, receiver, content, now, None, false, false)
  }

  // ---------------------------------------------------------------------------
  // MessageRepository

  /** The rows of `findByReceiverAndDeletedByReceiverFalse...`. */
  predicate InInbox(n: Note, u: UserId) {
    n.receiver == u && !n.deletedByReceiver
  }

  /** The rows of `findBySenderAndDeletedBySenderFalse...`. */
  predicate InOutbox(n: Note, u: UserId) {
    n.sender == u && !n.deletedBySender
  }

  predicate UnreadIn(n: Note, u: UserId) {
    InInbox(n, u) && n.readAt.None?
  }

  /** `countByReceiverAndReadAtIsNullAndDeletedByReceiverFalse`. */
  function UnreadNotes(t: Table<Note>, u: UserId): nat {
    |set id | id in t.rows && UnreadIn(t.rows[id], u)|
  }

  /** The repository's `markAllAsRead(u, now)`: stamps every unread note still in u's inbox. */
  function MarkInboxRead(t: Table<Note>, u: UserId, now: Time): (r: Table<Note>)
    ensures r.rows.Keys == t.rows.Keys && r.next == t.next
    ensures forall id | id in t.rows ::
      r.rows[id] == if UnreadIn(t.rows[id], u) then t.rows[id].(readAt := Some(now)) else t.rows[id]
  {
    Table(map id | id in t.rows :: if UnreadIn(t.rows[id], u) then t.rows[id].(readAt := Some(now)) else t.rows[id],
          t.next)
  }

  /**
   * After `markAllAsRead` the user has no unread notes; notes already read
   * keep their first read time, and notes the receiver deleted stay unread.
   */
  lemma MarkInboxReadEffect(t: Table<Note>, u: UserId, now: Time)
    ensures UnreadNotes(MarkInboxRead(t, u, now), u) == 0
    ensures forall id | id in t.rows && t.rows[id].readAt.Some? :: MarkInboxRead(t, u, now).rows[id].readAt == t.rows[id].readAt
    ensures forall id | id in t.rows && t.rows[id].receiver == u && t.rows[id].deletedByReceiver ::
      MarkInboxRead(t, u, now).rows[id] == t.rows[id]
  {
    var r := MarkInboxRead(t, u, now);
    assert (set id | id in r.rows && UnreadIn(r.rows[id], u)) == {};
  }

  // ---------------------------------------------------------------------------
  // MessageService

  /** A note as the service returns it; `read` is derived from `readAt`. */
  datatype NoteView = NoteView(id: nat, sender: UserId, receiver: UserId, content: string,
                               sentAt: Time, readAt: Option<Time>, read: bool)

  function View(id: nat, n: Note): (v: NoteView)
    ensures v.read <==> n.readAt.Some?
    ensures v.readAt == n.readAt && v.id == id && v.sender == n.sender && v.receiver == n.receiver
  {
    NoteView(id, n.sender, n.receiver, n.content, n.sentAt, n.readAt, n.readAt.Some?)
  }

  /** `deleteMessage` on the row: the sender's side when the caller sent it, else the receiver's. */
  function DeletedBy(n: Note, u: UserId): Note
    requires u == n.sender || u == n.receiver
  {
    if n.sender == u then n.(deletedBySender := true) else n.(deletedByReceiver := true)
  }

  /**
   * Deleting removes the note from the caller's box only: the other party's
   * box, and the read state, are untouched.
   */
  lemma DeleteIsOneSided(n: Note, u: UserId, v: UserId)
    requires u == n.sender || u == n.receiver
    ensures u == n.sender ==> !InOutbox(DeletedBy(n, u), v) && InInbox(DeletedBy(n, u), v) == InInbox(n, v)
    ensures u != n.sender ==> !InInbox(DeletedBy(n, u), v) && InOutbox(DeletedBy(n, u), v) == InOutbox(n, v)
    ensures DeletedBy(n, u).readAt == n.readAt
  {
  }

  class NoteService {
    const users: UserStore
    const notifier: NotificationService
    var notes: Table<Note>

    ghost predicate Valid()
      reads this, notifier
    {
      && notes.Valid()
      && (forall id | id in notes.rows :: |notes.rows[id].content| <= MAX_CONTENT)
      && notifier.Valid() && notifier.users == users
    }

    constructor(users: UserStore, notifier: NotificationService)
      requires notifier.Valid() && notifier.users == users
      ensures Valid() && this.users == users && this.notifier == notifier && notes.rows == map[]
    {
      this.users := users;
      this.notifier := notifier;
      notes := EmptyTable();
    }

    /**
     * `sendMessage`: the sender, then the receiver, must exist; the note is
     * stored unread and the receiver is notified with the note's id.
     */
    method SendNote(sender: UserId, receiver: UserId, content: string, now: Time) returns (r: Outcome<nat>)
      requires Valid()
      modifies this, notifier
      ensures Valid()
      ensures sender !in users.users || receiver !in users.users ==> r == Fail(UserNotFound)
      ensures r.Ok? <==> sender in users.users && receiver in users.users && |content| <= MAX_CONTENT
      ensures r.Fail? ==> notes == old(notes) && notifier.table == old(notifier.table)
      ensures r.Ok? ==>
        var name := users.users[sender].name;
        && r.value == old(notes.next)
        && notes == old(notes).Insert(NewNote(sender, receiver, content, now))
        && notifier.table == Created(old(notifier.table), users.users, receiver,
             Notice(sender, name, "MESSAGE", name + "님이 쪽지를 보냈습니다", Some(r.value)), now)
    {
      if sender !in users.users || receiver !in users.users {
        return Fail(UserNotFound);
      }
      if |content| > MAX_CONTENT {
        return Fail(ConstraintViolation);
      }
      var id := notes.next;
      notes := notes.Insert(NewNote(sender, receiver, content, now));
      var name := users.users[sender].name;
      notifier.CreateAndSend(receiver, Notice(sender, name, "MESSAGE", name + "님이 쪽지를 보냈습니다", Some(id)), now);
      r := Ok(id);
    }

    /** `getReceivedMessages`: every note in the user's inbox, newest first. */
    method GetReceived(u: UserId) returns (r: Outcome<seq<NoteView>>)
      requires Valid()
      ensures r.Fail? <==> u !in users.users
      ensures r.Fail? ==> r.error == UserNotFound
      ensures r.Ok? ==>
        && (forall i, j | 0 <= i < j < |r.value| :: r.value[i].id > r.value[j].id)
        && (forall i | 0 <= i < |r.value| :: r.value[i].id in notes.rows && r.value[i] == View(r.value[i].id, notes.rows[r.value[i].id]))
        && (forall id :: (exists i | 0 <= i < |r.value| :: r.value[i].id == id) <==> id in notes.rows && InInbox(notes.rows[id], u))
    {
      if u !in users.users {
        return Fail(UserNotFound);
      }
      var ids := SelectNewest(notes, (n: Note) => InInbox(n, u), None);
      r := Ok(Views(ids));
    }

    /** `getSentMessages`: every note in the user's outbox, newest first. */
    method GetSent(u: UserId) returns (r: Outcome<seq<NoteView>>)
      requires Valid()
      ensures r.Fail? <==> u !in users.users
      ensures r.Fail? ==> r.error == UserNotFound
      ensures r.Ok? ==>
        && (forall i, j | 0 <= i < j < |r.value| :: r.value[i].id > r.value[j].id)
        && (forall i | 0 <= i < |r.value| :: r.value[i].id in notes.rows && r.value[i] == View(r.value[i].id, notes.rows[r.value[i].id]))
        && (forall id :: (exists i | 0 <= i < |r.value| :: r.value[i].id == id) <==> id in notes.rows && InOutbox(notes.rows[id], u))
    {
      if u !in users.users {
        return Fail(UserNotFound);
      }
      var ids := SelectNewest(notes, (n: Note) => InOutbox(n, u), None);
      r := Ok(Views(ids));
    }

    /** The response mapping over a list of stored note ids. */
    function Views(ids: seq<nat>): (vs: seq<NoteView>)
      reads this
      requires forall i | 0 <= i < |ids| :: ids[i] in notes.rows
      ensures |vs| == |ids|
      ensures forall i | 0 <= i < |ids| :: vs[i] == View(ids[i], notes.rows[ids[i]])
    {
      seq(|ids|, i reads this requires 0 <= i < |ids| && ids[i] in notes.rows => View(ids[i], notes.rows[ids[i]]))
    }

    /**
     * `markAsRead`: only the receiver may mark a note; the first read stamps
     * the time and later reads keep it.
     */
    method MarkAsRead(id: nat, u: UserId, now: Time) returns (r: Outcome<()>)
      requires Valid()
      modifies this
      ensures Valid()
      ensures id !in old(notes.rows) ==> r == Fail(MessageNotFound)
      ensures id in old(notes.rows) && old(notes.rows)[id].receiver != u ==> r == Fail(Forbidden)
      ensures r.Ok? <==> id in old(notes.rows) && old(notes.rows)[id].receiver == u
      ensures r.Fail? ==> notes == old(notes)
      ensures r.Ok? && old(notes.rows)[id].readAt.Some? ==> notes == old(notes)
      ensures r.Ok? && old(notes.rows)[id].readAt.None? ==>
        notes == old(notes).Update(id, old(notes.rows)[id].(readAt := Some(now)))
    {
      if id !in notes.rows {
        return Fail(MessageNotFound);
      }
      if notes.rows[id].receiver != u {
        return Fail(Forbidden);
      }
      if notes.rows[id].readAt.None? {
        notes := notes.Update(id, notes.rows[id].(readAt := Some(now)));
      }
      r := Ok(());
    }

    /**
     * `deleteMessage`: the sender removes the note from the outbox, the
     * receiver from the inbox, and anyone else is refused.
     */
    method DeleteNote(id: nat, u: UserId) returns (r: Outcome<()>)
      requires Valid()
      modifies this
      ensures Valid()
      ensures id !in old(notes.rows) ==> r == Fail(MessageNotFound)
      ensures r.Ok? <==> id in old(notes.rows) && (old(notes.rows)[id].sender == u || old(notes.rows)[id].receiver == u)
      ensures r.Fail? ==> notes == old(notes)
      ensures r.Ok? ==> notes == old(notes).Update(id, DeletedBy(old(notes.rows)[id], u))
      ensures id in old(notes.rows) && old(notes.rows)[id].sender != u && old(notes.rows)[id].receiver != u ==>
        r == Fail(Forbidden)
    {
      if id !in notes.rows {
        return Fail(MessageNotFound);
      }
      var n := notes.rows[id];
      if n.sender != u && n.receiver != u {
        return Fail(Forbidden);
      }
      notes := notes.Update(id, DeletedBy(n, u));
      r := Ok(());
    }

    /** `getUnreadCount`. */
    method GetUnreadCount(u: UserId) returns (r: Outcome<nat>)
      ensures r.Fail? <==> u !in users.users
      ensures r.Fail? ==> r.error == UserNotFound
      ensures r.Ok? ==> r.value == UnreadNotes(notes, u)
    {
      if u !in users.users {
        return Fail(UserNotFound);
      }
      r := Ok(UnreadNotes(notes, u));
    }
  }
}
