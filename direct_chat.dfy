/**
 * One-to-one chat: rooms keyed by an unordered pair of users, messages with
 * a read flag, bulk read marking when a room is listed, and the two
 * soft-delete flags of a message.
 */
module DirectChat {
  import opened Common
  import opened Users
  import opened Notifications

  /** The `content` column holds at most 2000 characters. */
  const MAX_CONTENT: nat := 2000
  /** Room previews keep this many characters of a longer message, followed by "...". */
  const PREVIEW_LENGTH: nat := 100

  datatype ChatRoom = ChatRoom(
    user1: UserId,
    user2: UserId,
    lastMessage: Option<string>,
    lastMessageAt: Option<Time>)

  datatype ChatMessage = ChatMessage(
    room: nat,
    sender: UserId,
    content: string,
    isRead: bool,
    sentAt: Time,
    completelyDeleted: bool,   // deleted before the other party read it: gone for both
    deletedBySender: bool)     // deleted after it was read: hidden from the sender only

  // ---------------------------------------------------------------------------
  // ChatRoomRepository

  predicate IsPair(r: ChatRoom, a: UserId, b: UserId) {
    (r.user1 == a && r.user2 == b) || (r.user1 == b && r.user2 == a)
  }

  predicate Participant(r: ChatRoom, u: UserId) {
    r.user1 == u || r.user2 == u
  }

  /** `findByUsers(a, b)`: the rooms of the pair, in either order. */
  function RoomsOfPair(rooms: map<nat, ChatRoom>, a: UserId, b: UserId): (r: set<nat>)
    ensures forall id :: id in r <==> id in rooms && IsPair(rooms[id], a, b)
  {
    set id | id in rooms && IsPair(rooms[id], a, b)
  }

  /** The pair lookup does not depend on the order of the two users. */
  lemma RoomsOfPairSymmetric(rooms: map<nat, ChatRoom>, a: UserId, b: UserId)
    ensures RoomsOfPair(rooms, a, b) == RoomsOfPair(rooms, b, a)
  {
  }

  /** `findByUser`: the rooms where `u` is either participant. */
  function RoomsOfUser(rooms: map<nat, ChatRoom>, u: UserId): (r: set<nat>)
    ensures forall id :: id in r <==> id in rooms && Participant(rooms[id], u)
  {
    set id | id in rooms && Participant(rooms[id], u)
  }

  /**
   * The optional result of `findByUsers` presupposes at most one room per
   * unordered pair; the unique constraint covers only the ordered pair, and
   * it is `getOrCreateRoom` that keeps this invariant.
   */
  ghost predicate OneRoomPerPair(rooms: map<nat, ChatRoom>) {
    forall i, j | i in rooms && j in rooms && IsPair(rooms[i], rooms[j].user1, rooms[j].user2) :: i == j
  }

  /** The ordering key of `findByUser`. */
  function LastMessageTimes(rooms: map<nat, ChatRoom>): (t: map<nat, Option<Time>>)
    ensures t.Keys == rooms.Keys
    ensures forall id | id in rooms :: t[id] == rooms[id].lastMessageAt
  {
    map id | id in rooms :: rooms[id].lastMessageAt
  }

  // ---------------------------------------------------------------------------
  // ChatMessageRepository

  /** The row condition shared by `countUnreadMessages` and `markAsRead`. */
  predicate UnreadBy(m: ChatMessage, room: nat, u: UserId) {
    m.room == room && m.sender != u && !m.isRead
  }

  /** `countUnreadMessages(room, u)`: messages in the room not sent by `u` and not read. */
  function CountUnread(msgs: map<nat, ChatMessage>, room: nat, u: UserId): nat {
    |set id | id in msgs && UnreadBy(msgs[id], room, u)|
  }

  /** `markAsRead(room, u)`: every message of the room sent by someone else becomes read. */
  function MarkRead(msgs: map<nat, ChatMessage>, room: nat, u: UserId): (r: map<nat, ChatMessage>)
    ensures r.Keys == msgs.Keys
    ensures forall id | id in msgs ::
      r[id] == if msgs[id].room == room && msgs[id].sender != u then msgs[id].(isRead := true) else msgs[id]
  {
    map id | id in msgs :: if msgs[id].room == room && msgs[id].sender != u then msgs[id].(isRead := true) else msgs[id]
  }

  /** `markAllAsRead(rooms, u)`: the same update over every room of a set. */
  function MarkRoomsRead(msgs: map<nat, ChatMessage>, rooms: set<nat>, u: UserId): (r: map<nat, ChatMessage>)
    ensures r.Keys == msgs.Keys
    ensures forall id | id in msgs ::
      r[id] == if msgs[id].room in rooms && msgs[id].sender != u then msgs[id].(isRead := true) else msgs[id]
  {
    map id | id in msgs :: if msgs[id].room in rooms && msgs[id].sender != u then msgs[id].(isRead := true) else msgs[id]
  }

  /**
   * Marking a room read leaves nothing unread there for `u`, never clears a
   * read flag, touches only other people's messages in that room, and is
   * idempotent.
   */
  lemma MarkReadEffect(msgs: map<nat, ChatMessage>, room: nat, u: UserId)
    ensures CountUnread(MarkRead(msgs, room, u), room, u) == 0
    ensures forall id | id in msgs && msgs[id].isRead :: MarkRead(msgs, room, u)[id].isRead
    ensures forall id | id in msgs && (msgs[id].room != room || msgs[id].sender == u) ::
      MarkRead(msgs, room, u)[id] == msgs[id]
    ensures MarkRead(MarkRead(msgs, room, u), room, u) == MarkRead(msgs, room, u)
  {
    var r := MarkRead(msgs, room, u);
    assert (set id | id in r && UnreadBy(r[id], room, u)) == {};
  }

  /** Marking a set of rooms is marking each room in turn. */
  lemma MarkRoomsReadOneAtATime(msgs: map<nat, ChatMessage>, rooms: set<nat>, room: nat, u: UserId)
    ensures MarkRoomsRead(msgs, {}, u) == msgs
    ensures MarkRoomsRead(msgs, rooms + {room}, u) == MarkRead(MarkRoomsRead(msgs, rooms, u), room, u)
  {
  }

  /** `deleteByChatRoom`: removes exactly the messages of that room. */
  function DeleteByRoom(msgs: map<nat, ChatMessage>, room: nat): (r: map<nat, ChatMessage>)
    ensures forall id :: id in r <==> id in msgs && msgs[id].room != room
    ensures forall id | id in r :: r[id] == msgs[id]
  {
    map id | id in msgs && msgs[id].room != room :: msgs[id]
  }

  // ---------------------------------------------------------------------------
  // ChatService

  /** The room preview: the whole message up to 100 characters, else its first 100 and "...". */
  function Preview(content: string): (p: string)
    ensures |content| <= PREVIEW_LENGTH ==> p == content
    ensures |content| > PREVIEW_LENGTH ==>
      |p| == PREVIEW_LENGTH + 3 && p[..PREVIEW_LENGTH] == content[..PREVIEW_LENGTH] && p[PREVIEW_LENGTH..] == "..."
  {
    if |content| > PREVIEW_LENGTH then content[..PREVIEW_LENGTH] + "..." else content
  }

  /** The participant the notification goes to: user2 when the sender is user1, otherwise user1. */
  function OtherParty(r: ChatRoom, u: UserId): UserId {
    if r.user1 == u then r.user2 else r.user1
  }

  /** A message the viewer no longer sees, as the entity's deletion flags describe. */
  predicate HiddenFrom(m: ChatMessage, viewer: UserId) {
    m.completelyDeleted || (m.deletedBySender && viewer == m.sender)
  }

  /** The deletion rule recorded on the entity: unread → gone for both; read → hidden for the sender. */
  function Deleted(m: ChatMessage): ChatMessage {
    if m.isRead then m.(deletedBySender := true) else m.(completelyDeleted := true)
  }

  /**
   * Deleting an unread message hides it from everyone; deleting a read one
   * hides it from its sender and from nobody else.
   */
  lemma DeletedVisibility(m: ChatMessage, viewer: UserId)
    requires !m.completelyDeleted && !m.deletedBySender
    ensures !m.isRead ==> HiddenFrom(Deleted(m), viewer)
    ensures m.isRead ==> (HiddenFrom(Deleted(m), viewer) <==> viewer == m.sender)
  {
  }

  /** A room as `getMyChatRooms` reports it. */
  datatype RoomSummary = RoomSummary(
    id: nat,
    otherUser: UserId,
    lastMessage: Option<string>,
    lastMessageAt: Option<Time>,
    unreadCount: nat)

  class ChatService {
    const users: UserStore
    const notifier: NotificationService
    var rooms: Table<ChatRoom>
    var messages: Table<ChatMessage>

    ghost predicate Valid()
      reads this, notifier
    {
      && rooms.Valid() && messages.Valid()
      && OneRoomPerPair(rooms.rows)
      && (forall id | id in messages.rows :: messages.rows[id].room in rooms.rows)
      && (forall id | id in messages.rows :: |messages.rows[id].content| <= MAX_CONTENT)
      && notifier.Valid() && notifier.users == users
    }

    constructor(users: UserStore, notifier: NotificationService)
      requires notifier.Valid() && notifier.users == users
      ensures Valid() && this.users == users && this.notifier == notifier
      ensures rooms.rows == map[] && messages.rows == map[]
    {
      this.users := users;
      this.notifier := notifier;
      rooms := EmptyTable();
      messages := EmptyTable();
    }

    /**
     * `getOrCreateRoom(a, b)`: both users must exist; the room of the pair
     * is returned whichever order it was created in, otherwise a room with
     * user1 = a and user2 = b is created.
     */
    method GetOrCreateRoom(a: UserId, b: UserId) returns (r: Outcome<nat>)
      requires Valid()
      modifies this
      ensures Valid()
      ensures a !in users.users || b !in users.users <==> r.Fail?
      ensures r.Fail? ==> r.error == UserNotFound && rooms == old(rooms) && messages == old(messages)
      ensures r.Ok? && RoomsOfPair(old(rooms.rows), a, b) != {} ==>
        RoomsOfPair(old(rooms.rows), a, b) == {r.value} && rooms == old(rooms)
      ensures r.Ok? && RoomsOfPair(old(rooms.rows), a, b) == {} ==>
        r.value == old(rooms.next) && rooms == old(rooms).Insert(ChatRoom(a, b, None, None))
      ensures messages == old(messages)
      ensures r.Ok? ==> RoomsOfPair(rooms.rows, a, b) == {r.value}
    {
      if a !in users.users || b !in users.users {
        return Fail(UserNotFound);
      }
      var found := RoomsOfPair(rooms.rows, a, b);
      if found != {} {
        var id :| id in found;
        assert found == {id};
        return Ok(id);
      }
      var id := rooms.next;
      rooms := rooms.Insert(ChatRoom(a, b, None, None));
      assert RoomsOfPair(rooms.rows, a, b) == {id};
      r := Ok(id);
    }

    /**
     * `getMyChatRooms`: for every room of the caller, most recent first, the
     * other participant, the preview and the caller's unread count.
     */
    method GetMyChatRooms(u: UserId) returns (r: Outcome<seq<RoomSummary>>)
      requires Valid()
      ensures r.Fail? <==> u !in users.users
      ensures r.Fail? ==> r.error == UserNotFound
      ensures r.Ok? ==>
        && (forall id :: (exists i | 0 <= i < |r.value| :: r.value[i].id == id) <==> id in RoomsOfUser(rooms.rows, u))
        && (forall i | 0 <= i < |r.value| ::
              var s := r.value[i];
              && s.id in rooms.rows
              && s.otherUser == OtherParty(rooms.rows[s.id], u)
              && s.lastMessage == rooms.rows[s.id].lastMessage
              && s.lastMessageAt == rooms.rows[s.id].lastMessageAt
              && s.unreadCount == CountUnread(messages.rows, s.id, u))
        && (forall i, j | 0 <= i < j < |r.value| ::
              r.value[i].id != r.value[j].id && NoLaterThan(r.value[i].lastMessageAt, r.value[j].lastMessageAt))
    {
      if u !in users.users {
        return Fail(UserNotFound);
      }
      var rs, ms := rooms.rows, messages.rows;
      var ids := OrderByRecency(LastMessageTimes(rs), RoomsOfUser(rs, u));
      var summaries := seq(|ids|, i requires 0 <= i < |ids| =>
        var room := rs[ids[i]];
        RoomSummary(ids[i], OtherParty(room, u), room.lastMessage, room.lastMessageAt, CountUnread(ms, ids[i], u)));
      forall id | id in RoomsOfUser(rooms.rows, u)
        ensures exists i | 0 <= i < |summaries| :: summaries[i].id == id
      {
        var i :| 0 <= i < |ids| && ids[i] == id;
        assert summaries[i].id == id;
      }
      r := Ok(summaries);
    }

    /**
     * `sendMessage`: the room, then the sender, must exist; no check that
     * the sender takes part in the room. The message is stored unread and
     * undeleted, the room preview and time are updated, and the other
     * participant is notified.
     */
    method SendMessage(roomId: nat, sender: UserId, content: string, now: Time) returns (r: Outcome<nat>)
      requires Valid()
      modifies this, notifier
      ensures Valid()
      ensures roomId !in old(rooms.rows) ==> r == Fail(RoomNotFound)
      ensures roomId in old(rooms.rows) && sender !in users.users ==> r == Fail(UserNotFound)
      ensures r.Ok? <==> roomId in old(rooms.rows) && sender in users.users && |content| <= MAX_CONTENT
      ensures r.Fail? ==> rooms == old(rooms) && messages == old(messages) && notifier.table == old(notifier.table)
      ensures r.Ok? ==>
        var room := old(rooms.rows)[roomId];
        && r.value == old(messages.next)
        && messages == old(messages).Insert(ChatMessage(roomId, sender, content, false, now, false, false))
        && rooms == old(rooms).Update(roomId, room.(lastMessage := Some(Preview(content)), lastMessageAt := Some(now)))
        && notifier.table == Created(old(notifier.table), users.users, OtherParty(room, sender),
             Notice(sender, users.users[sender].name, "CHAT", users.users[sender].name + "님이 메시지를 보냈습니다", Some(roomId)), now)
    {
      if roomId !in rooms.rows {
        return Fail(RoomNotFound);
      }
      if sender !in users.users {
        return Fail(UserNotFound);
      }
      if |content| > MAX_CONTENT {
        return Fail(ConstraintViolation);
      }
      var id := messages.next;
      messages := messages.Insert(ChatMessage(roomId, sender, content, false, now, false, false));
      var room := rooms.rows[roomId];
      rooms := rooms.Update(roomId, room.(lastMessage := Some(Preview(content)), lastMessageAt := Some(now)));
      var name := users.users[sender].name;
      notifier.CreateAndSend(OtherParty(room, sender), Notice(sender, name, "CHAT", name + "님이 메시지를 보냈습니다", Some(roomId)), now);
      r := Ok(id);
    }

    /**
     * `getMessages`: the room, then the viewer, must exist; every message of
     * the room sent by someone else is marked read, then all the room's
     * messages are listed oldest first, deleted ones included.
     */
    method GetMessages(roomId: nat, viewer: UserId) returns (r: Outcome<seq<nat>>)
      requires Valid()
      modifies this
      ensures Valid()
      ensures roomId !in old(rooms.rows) ==> r == Fail(RoomNotFound)
      ensures r.Ok? <==> roomId in old(rooms.rows) && viewer in users.users
      ensures r.Fail? ==> messages == old(messages)
      ensures rooms == old(rooms)
      ensures r.Ok? ==>
        && messages == Table(MarkRead(old(messages.rows), roomId, viewer), old(messages.next))
        && CountUnread(messages.rows, roomId, viewer) == 0
        && OldestFirstOrder(r.value)
        && (forall id :: id in r.value <==> id in messages.rows && messages.rows[id].room == roomId)
    {
      if roomId !in rooms.rows {
        return Fail(RoomNotFound);
      }
      if viewer !in users.users {
        return Fail(UserNotFound);
      }
      MarkReadEffect(messages.rows, roomId, viewer);
      messages := Table(MarkRead(messages.rows, roomId, viewer), messages.next);
      var ids := SelectOldest(messages, (m: ChatMessage) => m.room == roomId);
      r := Ok(ids);
    }

    /**
     * `leaveRoom`: the room, then the user, must exist and the user must be
     * a participant; all the room's messages and then the room are deleted.
     */
    method LeaveRoom(roomId: nat, u: UserId) returns (r: Outcome<()>)
      requires Valid()
      modifies this
      ensures Valid()
      ensures roomId !in old(rooms.rows) ==> r == Fail(RoomNotFound)
      ensures roomId in old(rooms.rows) && u !in users.users ==> r == Fail(UserNotFound)
      ensures roomId in old(rooms.rows) && u in users.users && !Participant(old(rooms.rows)[roomId], u) ==> r == Fail(Forbidden)
      ensures r.Ok? <==> roomId in old(rooms.rows) && u in users.users && Participant(old(rooms.rows)[roomId], u)
      ensures r.Fail? ==> rooms == old(rooms) && messages == old(messages)
      ensures r.Ok? ==>
        && messages == Table(DeleteByRoom(old(messages.rows), roomId), old(messages.next))
        && rooms == old(rooms).Delete({roomId})
    {
      if roomId !in rooms.rows {
        return Fail(RoomNotFound);
      }
      if u !in users.users {
        return Fail(UserNotFound);
      }
      if !Participant(rooms.rows[roomId], u) {
        return Fail(Forbidden);
      }
      messages := Table(DeleteByRoom(messages.rows, roomId), messages.next);
      rooms := rooms.Delete({roomId});
      r := Ok(());
    }

    /**
     * Message deletion as the entity's field comments and the client
     * describe it (the service method itself is not part of this model):
     * only the sender may delete; an unread message is deleted for both
     * parties, a read one only from the sender's view.
     */
    method DeleteMessage(messageId: nat, u: UserId) returns (r: Outcome<()>)
      requires Valid()
      modifies this
      ensures Valid()
      ensures messageId !in old(messages.rows) ==> r == Fail(MessageNotFound)
      ensures messageId in old(messages.rows) && old(messages.rows)[messageId].sender != u ==> r == Fail(Forbidden)
      ensures r.Ok? <==> messageId in old(messages.rows) && old(messages.rows)[messageId].sender == u
      ensures r.Fail? ==> messages == old(messages)
      ensures rooms == old(rooms)
      ensures r.Ok? ==> messages == old(messages).Update(messageId, Deleted(old(messages.rows)[messageId]))
    {
      if messageId !in messages.rows {
        return Fail(MessageNotFound);
      }
      if messages.rows[messageId].sender != u {
        return Fail(Forbidden);
      }
      messages := messages.Update(messageId, Deleted(messages.rows[messageId]));
      r := Ok(());
    }

    /**
     * Marking every room of a user read, through the repository's
     * `markAllAsRead` over `findByUser` (the service method itself is not
     * part of this model); afterwards none of the user's rooms has unread
     * messages for them.
     */
    method MarkAllAsRead(u: UserId) returns (r: Outcome<()>)
      requires Valid()
      modifies this
      ensures Valid()
      ensures r.Fail? <==> u !in users.users
      ensures r.Fail? ==> r.error == UserNotFound && messages == old(messages)
      ensures rooms == old(rooms)
      ensures r.Ok? ==>
        && messages == Table(MarkRoomsRead(old(messages.rows), RoomsOfUser(rooms.rows, u), u), old(messages.next))
        && forall room | room in RoomsOfUser(rooms.rows, u) :: CountUnread(messages.rows, room, u) == 0
    {
      if u !in users.users {
        return Fail(UserNotFound);
      }
      var mine := RoomsOfUser(rooms.rows, u);
      messages := Table(MarkRoomsRead(messages.rows, mine, u), messages.next);
      forall room | room in mine
        ensures CountUnread(messages.rows, room, u) == 0
      {
        assert (set id | id in messages.rows && UnreadBy(messages.rows[id], room, u)) == {};
      }
      r := Ok(());
    }
  }
}
