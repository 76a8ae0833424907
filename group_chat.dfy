/**
 * Group chat: rooms with a creator, memberships carrying a read cursor (the
 * id of the last message the member has seen), and messages that can be
 * hidden for everyone or only for the users who deleted them.
 */
module GroupChat {
  import opened Common
  import opened Users
  import opened Notifications

  /** The `content` column holds at most 2000 characters. */
  const MAX_CONTENT: nat := 2000

  datatype GroupRoom = GroupRoom(
    name: string,
    creator: UserId,
    lastMessage: Option<string>,
    lastMessageAt: Option<Time>)

  datatype GroupMessage = GroupMessage(
    room: nat,
    sender: UserId,
    content: string,
    sentAt: Time,
    deletedBy: set<UserId>,     // users who removed it from their own view
    completelyDeleted: bool)    // removed for everyone

  /**
   * Memberships, one per (room, user) pair, each mapped to its read cursor
   * `lastReadMessageId` (`None` until the member first reads).
   */
  type Cursors = map<(nat, UserId), Option<nat>>

  /** A message as the service first stores it. */
  function NewMessage(room: nat, sender: UserId, content: string, now: Time): (m: GroupMessage)
    ensures m.deletedBy == {} && !m.completelyDeleted
    ensures m.room == room && m.sender == sender && m.content == content
  {
    GroupMessage(room, sender, content, now, {}, false)
  }

  // ---------------------------------------------------------------------------
  // GroupChatMemberRepository

  /** `findByRoom`: the users holding a membership of the room. */
  function MembersOf(cursors: Cursors, room: nat): (r: set<UserId>)
    ensures forall u :: u in r <==> (room, u) in cursors
  {
    set k | k in cursors && k.0 == room :: k.1
  }

  /** The members counted by `countUnreadMembers(room, id)`. */
  predicate HasNotRead(cursors: Cursors, k: (nat, UserId), room: nat, messageId: nat)
    requires k in cursors
  {
    k.0 == room && cursors[k].Some? && cursors[k].value < messageId
  }

  /**
   * `countUnreadMembers(room, id)`: members of the room whose cursor is
   * below the message id. A member whose cursor is still null compares
   * neither below nor above in SQL, so it is never counted.
   */
  function CountUnreadMembers(cursors: Cursors, room: nat, messageId: nat): nat {
    |set k | k in cursors && HasNotRead(cursors, k, room, messageId)|
  }

  /** A member who has never read anything does not add to any unread count. */
  lemma NullCursorNotCounted(cursors: Cursors, room: nat, u: UserId, messageId: nat)
    requires (room, u) in cursors && cursors[(room, u)].None?
    ensures CountUnreadMembers(cursors, room, messageId)
         == CountUnreadMembers(cursors - {(room, u)}, room, messageId)
  {
    assert (set k | k in cursors && HasNotRead(cursors, k, room, messageId))
        == (set k | k in cursors - {(room, u)} && HasNotRead(cursors - {(room, u)}, k, room, messageId));
  }

  /** Moving a member's cursor forward can only lower the unread count of any message. */
  lemma RaisingCursorLowersCount(cursors: Cursors, k: (nat, UserId), c: nat, room: nat, messageId: nat)
    requires k in cursors && cursors[k].Some? && cursors[k].value <= c
    ensures CountUnreadMembers(cursors[k := Some(c)], room, messageId) <= CountUnreadMembers(cursors, room, messageId)
  {
    var raised := cursors[k := Some(c)];
    var before := set j | j in cursors && HasNotRead(cursors, j, room, messageId);
    var after := set j | j in raised && HasNotRead(raised, j, room, messageId);
    assert after <= before;
    SubsetCardinality(after, before);
  }

  /**
   * A first read is the exception: a member whose cursor was null was not
   * counted, and once the cursor is set that member counts for every later
   * message, so the unread count of such a message goes up by exactly one.
   */
  lemma FirstReadRaisesCount(cursors: Cursors, k: (nat, UserId), c: nat, messageId: nat)
    requires k in cursors && cursors[k].None? && c < messageId
    ensures CountUnreadMembers(cursors[k := Some(c)], k.0, messageId) == CountUnreadMembers(cursors, k.0, messageId) + 1
  {
    var raised := cursors[k := Some(c)];
    var before := set j | j in cursors && HasNotRead(cursors, j, k.0, messageId);
    var after := set j | j in raised && HasNotRead(raised, j, k.0, messageId);
    assert k !in before;
    assert after == before + {k};
  }

  // ---------------------------------------------------------------------------
  // GroupChatService

  /** The cursor after viewing a room whose newest message is `last`: it only moves forward. */
  function Advanced(cursor: Option<nat>, last: nat): (c: Option<nat>)
    ensures c.Some? && last <= c.value
    ensures cursor.Some? ==> cursor.value <= c.value
    ensures cursor.Some? && last <= cursor.value ==> c == cursor
  {
    if cursor.None? || cursor.value < last then Some(last) else cursor
  }

  /** `id` is the newest message of the room, deleted ones included. */
  predicate IsLatestIn(msgs: map<nat, GroupMessage>, room: nat, id: nat) {
    id in msgs && msgs[id].room == room
    && forall j | j in msgs && msgs[j].room == room :: j <= id
  }

  /** A message the viewer no longer sees. */
  predicate HiddenFrom(m: GroupMessage, viewer: UserId) {
    m.completelyDeleted || viewer in m.deletedBy
  }

  /**
   * `deleteMessage` on the row: with any member still behind it the message
   * disappears for everyone, otherwise it is added to the sender's own hide set.
   */
  function Deleted(m: GroupMessage, unread: nat): GroupMessage {
    if unread > 0 then m.(completelyDeleted := true) else m.(deletedBy := m.deletedBy + {m.sender})
  }

  /**
   * Deleting while someone has not read hides the message from every viewer;
   * deleting after everyone read it hides it from the sender in addition to
   * whoever hid it before, and from nobody else. Deleting twice is deleting once.
   */
  lemma DeletedVisibility(m: GroupMessage, unread: nat, viewer: UserId)
    ensures unread > 0 ==> HiddenFrom(Deleted(m, unread), viewer)
    ensures unread == 0 ==> (HiddenFrom(Deleted(m, unread), viewer) <==> HiddenFrom(m, viewer) || viewer == m.sender)
    ensures unread == 0 ==> Deleted(Deleted(m, unread), unread) == Deleted(m, unread)
  {
  }

  /** A message as `getMessages` returns it. */
  datatype MessageView = MessageView(id: nat, sender: UserId, content: string, unreadCount: nat)

  /**
   * The memberships `createRoom` saves: the creator, then every listed id
   * other than the creator that names an existing user.
   */
  function Founding(room: nat, creator: UserId, memberIds: seq<UserId>, users: map<UserId, User>)
    : (r: set<(nat, UserId)>)
    ensures forall k | k in r :: k.0 == room
    ensures forall u :: (room, u) in r <==> u == creator || (u in memberIds && u in users)
  {
    {(room, creator)} + set m | m in memberIds && m != creator && m in users :: (room, m)
  }

  class GroupChatService {
    const users: UserStore
    const notifier: NotificationService
    var rooms: Table<GroupRoom>
    var cursors: Cursors
    var messages: Table<GroupMessage>

    ghost predicate Valid()
      reads this, notifier
    {
      && rooms.Valid() && messages.Valid()
      && (forall k | k in cursors :: k.0 in rooms.rows)
      && (forall k | k in cursors && cursors[k].Some? :: cursors[k].value < messages.next)
      && (forall id | id in messages.rows :: messages.rows[id].room in rooms.rows)
      && (forall id | id in messages.rows :: |messages.rows[id].content| <= MAX_CONTENT)
      && notifier.Valid() && notifier.users == users
    }

    constructor(users: UserStore, notifier: NotificationService)
      requires notifier.Valid() && notifier.users == users
      ensures Valid() && this.users == users && this.notifier == notifier
      ensures rooms.rows == map[] && cursors == map[] && messages.rows == map[]
    {
      this.users := users;
      this.notifier := notifier;
      rooms := EmptyTable();
      cursors := map[];
      messages := EmptyTable();
    }

    /**
     * `createRoom`: the creator must exist; the new room's members are the
     * creator and every listed id that names an existing user, all without
     * a cursor; unknown ids are skipped silently.
     */
    method CreateRoom(creator: UserId, name: string, memberIds: seq<UserId>) returns (r: Outcome<nat>)
      requires Valid()
      modifies this
      ensures Valid()
      ensures r.Fail? <==> creator !in users.users
      ensures r.Fail? ==> r.error == UserNotFound && rooms == old(rooms) && cursors == old(cursors)
      ensures messages == old(messages)
      ensures r.Ok? ==>
        && r.value == old(rooms.next)
        && rooms == old(rooms).Insert(GroupRoom(name, creator, None, None))
        && (forall k | k in old(cursors) :: k.0 != r.value)
        && cursors == old(cursors) + map k | k in Founding(r.value, creator, memberIds, users.users) :: None
    {
      if creator !in users.users {
        return Fail(UserNotFound);
      }
      var room := rooms.next;
      rooms := rooms.Insert(GroupRoom(name, creator, None, None));
      var joined := {(room, creator)};
      var i := 0;
      while i < |memberIds|
        invariant i <= |memberIds|
        invariant joined == Founding(room, creator, memberIds[..i], users.users)
      {
        var m := memberIds[i];
        assert memberIds[..i + 1] == memberIds[..i] + [m];
        if m != creator && m in users.users {
          joined := joined + {(room, m)};
        }
        i := i + 1;
      }
      assert memberIds[..i] == memberIds;
      cursors := cursors + map k | k in joined :: None;
      r := Ok(room);
    }

    /**
     * `getMyRooms`: the rooms the user is a member of, each once, most
     * recent message first and rooms without messages last.
     */
    method GetMyRooms(u: UserId) returns (r: Outcome<seq<nat>>)
      requires Valid()
      ensures r.Fail? <==> u !in users.users
      ensures r.Fail? ==> r.error == UserNotFound
      ensures r.Ok? ==>
        && (forall i | 0 <= i < |r.value| :: r.value[i] in rooms.rows && (r.value[i], u) in cursors)
        && (forall id | id in rooms.rows && (id, u) in cursors :: id in r.value)
        && Distinct(r.value)
        && (forall i, j | 0 <= i < j < |r.value| ::
              NoLaterThan(rooms.rows[r.value[i]].lastMessageAt, rooms.rows[r.value[j]].lastMessageAt))
    {
      if u !in users.users {
        return Fail(UserNotFound);
      }
      var rs := rooms.rows;
      var times := map id | id in rs :: rs[id].lastMessageAt;
      var mine := set id | id in rs && (id, u) in cursors;
      var ids := OrderByRecency(times, mine);
      r := Ok(ids);
    }

    /**
     * `sendMessage`: the room, then the sender, must exist and the sender
     * must be a member. The message is stored, the room preview becomes the
     * full content, the sender's cursor moves to the new message, and every
     * other member is notified once.
     */
    method SendMessage(roomId: nat, sender: UserId, content: string, now: Time)
      returns (r: Outcome<nat>, recipients: seq<UserId>)
      requires Valid()
      modifies this, notifier
      ensures Valid()
      ensures roomId !in old(rooms.rows) ==> r == Fail(RoomNotFound)
      ensures roomId in old(rooms.rows) && sender !in users.users ==> r == Fail(UserNotFound)
      ensures roomId in old(rooms.rows) && sender in users.users && (roomId, sender) !in old(cursors) ==> r == Fail(NotMember)
      ensures r.Ok? <==>
        roomId in old(rooms.rows) && sender in users.users && (roomId, sender) in old(cursors) && |content| <= MAX_CONTENT
      ensures r.Fail? ==>
        && rooms == old(rooms) && cursors == old(cursors) && messages == old(messages)
        && notifier.table == old(notifier.table)
      ensures r.Ok? ==>
        var room := old(rooms.rows)[roomId];
        var senderName := users.users[sender].name;
        && r.value == old(messages.next)
        && messages == old(messages).Insert(NewMessage(roomId, sender, content, now))
        && rooms == old(rooms).Update(roomId, room.(lastMessage := Some(content), lastMessageAt := Some(now)))
        && cursors == old(cursors)[(roomId, sender) := Some(r.value)]
        && (old(cursors)[(roomId, sender)].Some? ==> old(cursors)[(roomId, sender)].value < r.value)
        && (forall u :: u in recipients <==> u in MembersOf(old(cursors), roomId) && u != sender)
        && Distinct(recipients)
        && notifier.table == CreatedForEach(old(notifier.table), users.users, recipients,
             Notice(sender, senderName, "GROUP_CHAT", "[" + room.name + "] " + senderName + "님이 메시지를 보냈습니다", Some(roomId)),
             now)
    {
      recipients := [];
      if roomId !in rooms.rows {
        return Fail(RoomNotFound), recipients;
      }
      if sender !in users.users {
        return Fail(UserNotFound), recipients;
      }
      if (roomId, sender) !in cursors {
        return Fail(NotMember), recipients;
      }
      if |content| > MAX_CONTENT {
        return Fail(ConstraintViolation), recipients;
      }
      var id := messages.next;
      messages := messages.Insert(NewMessage(roomId, sender, content, now));
      var room := rooms.rows[roomId];
      rooms := rooms.Update(roomId, room.(lastMessage := Some(content), lastMessageAt := Some(now)));
      cursors := cursors[(roomId, sender) := Some(id)];
      recipients := OthersInRoom(roomId, sender);
      var senderName := users.users[sender].name;
      notifier.CreateAndSendEach(recipients,
        Notice(sender, senderName, "GROUP_CHAT", "[" + room.name + "] " + senderName + "님이 메시지를 보냈습니다", Some(roomId)),
        now);
      r := Ok(id);
    }

    /** The members of a room other than `u`, each listed once, in no particular order. */
    method OthersInRoom(room: nat, u: UserId) returns (others: seq<UserId>)
      ensures forall v :: v in others <==> v in MembersOf(cursors, room) && v != u
      ensures Distinct(others)
    {
      var rest := MembersOf(cursors, room) - {u};
      others := [];
      while rest != {}
        invariant forall v :: v in others <==> v in MembersOf(cursors, room) && v != u && v !in rest
        invariant rest <= MembersOf(cursors, room) - {u}
        invariant Distinct(others)
        decreases |rest|
      {
        var v :| v in rest;
        others := others + [v];
        rest := rest - {v};
      }
    }

    /**
     * `getMessages`: the room, then the viewer, must exist. A member's cursor
     * moves up to the room's newest message (deleted ones included) and
     * never back; a non-member's view changes nothing. The messages the
     * viewer has not hidden are returned oldest first, each with the number
     * of members who have not read it.
     */
    method GetMessages(roomId: nat, viewer: UserId) returns (r: Outcome<seq<MessageView>>)
      requires Valid()
      modifies this
      ensures Valid()
      ensures roomId !in old(rooms.rows) ==> r == Fail(RoomNotFound)
      ensures r.Ok? <==> roomId in old(rooms.rows) && viewer in users.users
      ensures rooms == old(rooms) && messages == old(messages)
      ensures r.Fail? || (roomId, viewer) !in old(cursors) ==> cursors == old(cursors)
      ensures r.Ok? && (roomId, viewer) in old(cursors) ==>
        && (forall last | IsLatestIn(messages.rows, roomId, last) ::
              cursors == old(cursors)[(roomId, viewer) := Advanced(old(cursors)[(roomId, viewer)], last)])
        && ((forall id | id in messages.rows :: messages.rows[id].room != roomId) ==> cursors == old(cursors))
      ensures r.Ok? ==>
        && (forall i, j | 0 <= i < j < |r.value| :: r.value[i].id < r.value[j].id)
        && (forall id :: (exists i | 0 <= i < |r.value| :: r.value[i].id == id) <==>
              id in messages.rows && messages.rows[id].room == roomId && !HiddenFrom(messages.rows[id], viewer))
        && (forall i | 0 <= i < |r.value| ::
              var v := r.value[i];
              && v.id in messages.rows
              && v.sender == messages.rows[v.id].sender && v.content == messages.rows[v.id].content
              && v.unreadCount == CountUnreadMembers(cursors, roomId, v.id))
    {
      if roomId !in rooms.rows {
        return Fail(RoomNotFound);
      }
      if viewer !in users.users {
        return Fail(UserNotFound);
      }
      ReadUpTo(roomId, viewer);
      var views := Shown(roomId, viewer);
      r := Ok(views);
    }

    /** A member's cursor moves up to the room's newest message, and never back. */
    method ReadUpTo(roomId: nat, viewer: UserId)
      requires Valid() && roomId in rooms.rows
      modifies this
      ensures Valid()
      ensures rooms == old(rooms) && messages == old(messages)
      ensures (roomId, viewer) !in old(cursors) ==> cursors == old(cursors)
      ensures (roomId, viewer) in old(cursors) ==>
        && (forall last | IsLatestIn(messages.rows, roomId, last) ::
              cursors == old(cursors)[(roomId, viewer) := Advanced(old(cursors)[(roomId, viewer)], last)])
        && ((forall id | id in messages.rows :: messages.rows[id].room != roomId) ==> cursors == old(cursors))
    {
      var all := SelectOldest(messages, (m: GroupMessage) => m.room == roomId);
      if all != [] && (roomId, viewer) in cursors {
        var last := all[|all| - 1];
        assert IsLatestIn(messages.rows, roomId, last) by {
          forall j | j in messages.rows && messages.rows[j].room == roomId
            ensures j <= last
          {
            var i :| 0 <= i < |all| && all[i] == j;
            if i < |all| - 1 {
              assert all[i] < all[|all| - 1];
            }
          }
        }
        forall other | IsLatestIn(messages.rows, roomId, other)
          ensures other == last
        {
        }
        cursors := cursors[(roomId, viewer) := Advanced(cursors[(roomId, viewer)], last)];
      }
    }

    /** The room's messages the viewer has not hidden, oldest first, each with its unread count. */
    method Shown(roomId: nat, viewer: UserId) returns (views: seq<MessageView>)
      requires messages.Valid()
      ensures forall i, j | 0 <= i < j < |views| :: views[i].id < views[j].id
      ensures forall id :: (exists i | 0 <= i < |views| :: views[i].id == id) <==>
        id in messages.rows && messages.rows[id].room == roomId && !HiddenFrom(messages.rows[id], viewer)
      ensures forall i | 0 <= i < |views| ::
        var v := views[i];
        && v.id in messages.rows
        && v.sender == messages.rows[v.id].sender && v.content == messages.rows[v.id].content
        && v.unreadCount == CountUnreadMembers(cursors, roomId, v.id)
    {
      var shown := SelectOldest(messages, (m: GroupMessage) => m.room == roomId && !HiddenFrom(m, viewer));
      var ms, cs := messages.rows, cursors;
      views := seq(|shown|, i requires 0 <= i < |shown| && shown[i] in ms =>
        MessageView(shown[i], ms[shown[i]].sender, ms[shown[i]].content, CountUnreadMembers(cs, roomId, shown[i])));
      forall id | id in ms && ms[id].room == roomId && !HiddenFrom(ms[id], viewer)
        ensures exists i | 0 <= i < |views| :: views[i].id == id
      {
        var i :| 0 <= i < |shown| && shown[i] == id;
        assert views[i].id == id;
      }
    }

    /**
     * `inviteMember`: the room, then the invitee, must exist and not be a
     * member yet; the invitee joins without a cursor. The inviter is not
     * looked up or checked at all.
     */
    method InviteMember(roomId: nat, inviter: UserId, newMember: UserId) returns (r: Outcome<()>)
      requires Valid()
      modifies this
      ensures Valid()
      ensures roomId !in old(rooms.rows) ==> r == Fail(RoomNotFound)
      ensures roomId in old(rooms.rows) && newMember !in users.users ==> r == Fail(UserNotFound)
      ensures roomId in old(rooms.rows) && newMember in users.users && (roomId, newMember) in old(cursors) ==> r == Fail(AlreadyMember)
      ensures r.Ok? <==> roomId in old(rooms.rows) && newMember in users.users && (roomId, newMember) !in old(cursors)
      ensures rooms == old(rooms) && messages == old(messages)
      ensures r.Fail? ==> cursors == old(cursors)
      ensures r.Ok? ==> cursors == old(cursors)[(roomId, newMember) := None]
    {
      if roomId !in rooms.rows {
        return Fail(RoomNotFound);
      }
      if newMember !in users.users {
        return Fail(UserNotFound);
      }
      if (roomId, newMember) in cursors {
        return Fail(AlreadyMember);
      }
      cursors := cursors[(roomId, newMember) := None];
      r := Ok(());
    }

    /** `leaveRoom`: the room, then the user, must exist and be a member; only that membership goes. */
    method LeaveRoom(roomId: nat, u: UserId) returns (r: Outcome<()>)
      requires Valid()
      modifies this
      ensures Valid()
      ensures roomId !in old(rooms.rows) ==> r == Fail(RoomNotFound)
      ensures roomId in old(rooms.rows) && u !in users.users ==> r == Fail(UserNotFound)
      ensures roomId in old(rooms.rows) && u in users.users && (roomId, u) !in old(cursors) ==> r == Fail(NotMember)
      ensures r.Ok? <==> roomId in old(rooms.rows) && u in users.users && (roomId, u) in old(cursors)
      ensures rooms == old(rooms) && messages == old(messages)
      ensures r.Fail? ==> cursors == old(cursors)
      ensures r.Ok? ==> cursors == old(cursors) - {(roomId, u)}
    {
      if roomId !in rooms.rows {
        return Fail(RoomNotFound);
      }
      if u !in users.users {
        return Fail(UserNotFound);
      }
      if (roomId, u) !in cursors {
        return Fail(NotMember);
      }
      cursors := cursors - {(roomId, u)};
      r := Ok(());
    }

    /**
     * `kickMember`: the room, the requester and the target must exist; only
     * the room's creator may kick, never themselves, and only a member.
     */
    method KickMember(roomId: nat, requester: UserId, target: UserId) returns (r: Outcome<()>)
      requires Valid()
      modifies this
      ensures Valid()
      ensures roomId !in old(rooms.rows) ==> r == Fail(RoomNotFound)
      ensures roomId in old(rooms.rows) && (requester !in users.users || target !in users.users) ==> r == Fail(UserNotFound)
      ensures roomId in old(rooms.rows) && requester in users.users && target in users.users ==>
        && (old(rooms.rows)[roomId].creator != requester ==> r == Fail(Forbidden))
        && (old(rooms.rows)[roomId].creator == requester && requester == target ==> r == Fail(SelfTarget))
      ensures r.Ok? <==>
        && roomId in old(rooms.rows) && requester in users.users && target in users.users
        && old(rooms.rows)[roomId].creator == requester && requester != target
        && (roomId, target) in old(cursors)
      ensures rooms == old(rooms) && messages == old(messages)
      ensures r.Fail? ==> cursors == old(cursors)
      ensures r.Ok? ==> cursors == old(cursors) - {(roomId, target)}
    {
      if roomId !in rooms.rows {
        return Fail(RoomNotFound);
      }
      if requester !in users.users || target !in users.users {
        return Fail(UserNotFound);
      }
      if rooms.rows[roomId].creator != requester {
        return Fail(Forbidden);
      }
      if requester == target {
        return Fail(SelfTarget);
      }
      if (roomId, target) !in cursors {
        return Fail(NotMember);
      }
      cursors := cursors - {(roomId, target)};
      r := Ok(());
    }

    /**
     * `deleteMessage`: only the sender may delete. While any member's cursor
     * is below the message it is deleted for everyone; otherwise it is
     * hidden only from the sender. Nothing else changes.
     */
    method DeleteMessage(messageId: nat, u: UserId) returns (r: Outcome<()>)
      requires Valid()
      modifies this
      ensures Valid()
      ensures messageId !in old(messages.rows) ==> r == Fail(MessageNotFound)
      ensures messageId in old(messages.rows) && old(messages.rows)[messageId].sender != u ==> r == Fail(Forbidden)
      ensures r.Ok? <==> messageId in old(messages.rows) && old(messages.rows)[messageId].sender == u
      ensures rooms == old(rooms) && cursors == old(cursors)
      ensures r.Fail? ==> messages == old(messages)
      ensures r.Ok? ==>
        var m := old(messages.rows)[messageId];
        messages == old(messages).Update(messageId, Deleted(m, CountUnreadMembers(cursors, m.room, messageId)))
    {
      if messageId !in messages.rows {
        return Fail(MessageNotFound);
      }
      var m := messages.rows[messageId];
      if m.sender != u {
        return Fail(Forbidden);
      }
      var unread := CountUnreadMembers(cursors, m.room, messageId);
      messages := messages.Update(messageId, Deleted(m, unread));
      r := Ok(());
    }
  }
}
