/**
 * Friendships: one row per pair of users, moving between PENDING, ACCEPTED
 * and REJECTED; a request answered by a crossing request becomes a
 * friendship, and a rejected row is reused for a new request.
 */
module Friends {
  import opened Common
  import opened Users
  import opened Notifications

  datatype FriendshipStatus = PENDING | ACCEPTED | REJECTED

  datatype Friendship = Friendship(
    requester: UserId,
    receiver: UserId,
    status: FriendshipStatus,
    createdAt: Time,
    acceptedAt: Option<Time>)

  predicate IsPairRow(f: Friendship, a: UserId, b: UserId) {
    (f.requester == a && f.receiver == b) || (f.requester == b && f.receiver == a)
  }

  // ---------------------------------------------------------------------------
  // FriendshipRepository

  /** `findByUsers(a, b)`: the rows between the two users, in either direction. */
  function RowsOfPair(rows: map<nat, Friendship>, a: UserId, b: UserId): (r: set<nat>)
    ensures forall id :: id in r <==> id in rows && IsPairRow(rows[id], a, b)
  {
    set id | id in rows && IsPairRow(rows[id], a, b)
  }

  lemma RowsOfPairSymmetric(rows: map<nat, Friendship>, a: UserId, b: UserId)
    ensures RowsOfPair(rows, a, b) == RowsOfPair(rows, b, a)
  {
  }

  /** `findAcceptedFriendships`: accepted rows on either side of the user. */
  function AcceptedOf(rows: map<nat, Friendship>, u: UserId): (r: set<nat>)
    ensures forall id :: id in r <==> id in rows && rows[id].status == ACCEPTED && (rows[id].requester == u || rows[id].receiver == u)
  {
    set id | id in rows && rows[id].status == ACCEPTED && (rows[id].requester == u || rows[id].receiver == u)
  }

  /** `findPendingRequests`: pending rows the user received. */
  function PendingFor(rows: map<nat, Friendship>, u: UserId): (r: set<nat>)
    ensures forall id :: id in r <==> id in rows && rows[id].receiver == u && rows[id].status == PENDING
  {
    set id | id in rows && rows[id].receiver == u && rows[id].status == PENDING
  }

  /** `findSentRequests`: pending rows the user sent. */
  function SentBy(rows: map<nat, Friendship>, u: UserId): (r: set<nat>)
    ensures forall id :: id in r <==> id in rows && rows[id].requester == u && rows[id].status == PENDING
  {
    set id | id in rows && rows[id].requester == u && rows[id].status == PENDING
  }

  /** `countPendingRequests`: its own COUNT query over the same condition. */
  function CountPending(rows: map<nat, Friendship>, u: UserId): nat {
    |set id | id in rows && rows[id].receiver == u && rows[id].status == PENDING|
  }

  /** The pending-request badge counts exactly the received-requests list. */
  lemma CountPendingIsListSize(rows: map<nat, Friendship>, u: UserId)
    ensures CountPending(rows, u) == |PendingFor(rows, u)|
  {
    assert (set id | id in rows && rows[id].receiver == u && rows[id].status == PENDING) == PendingFor(rows, u);
  }

  /**
   * `findByUserAndTargets`: rows between the user and any of the targets,
   * in either direction, that are PENDING or ACCEPTED.
   */
  function WithTargets(rows: map<nat, Friendship>, u: UserId, targets: seq<UserId>): (r: set<nat>)
    ensures forall id | id in r :: id in rows && rows[id].status != REJECTED
    ensures forall id :: id in r <==>
      id in rows && rows[id].status != REJECTED
      && ((rows[id].requester == u && rows[id].receiver in targets) || (rows[id].receiver == u && rows[id].requester in targets))
  {
    set id | id in rows && rows[id].status != REJECTED
      && ((rows[id].requester == u && rows[id].receiver in targets) || (rows[id].receiver == u && rows[id].requester in targets))
  }

  /** At most one row per unordered pair, which is what `findByUsers`' optional result presupposes. */
  ghost predicate OnePerPair(rows: map<nat, Friendship>) {
    forall i, j | i in rows && j in rows && IsPairRow(rows[i], rows[j].requester, rows[j].receiver) :: i == j
  }

  /**
   * The rows a friendship table can hold: one per pair, never a user with
   * themselves, and both parties existing accounts (the foreign keys).
   */
  ghost predicate RowsValid(rows: map<nat, Friendship>, users: map<UserId, User>) {
    && OnePerPair(rows)
    && (forall id | id in rows :: rows[id].requester != rows[id].receiver)
    && (forall id | id in rows :: rows[id].requester in users && rows[id].receiver in users)
  }

  /** Rewriting a row within the same pair keeps the table well formed. */
  lemma SamePairUpdate(rows: map<nat, Friendship>, users: map<UserId, User>, id: nat, g: Friendship)
    requires RowsValid(rows, users) && id in rows
    requires IsPairRow(g, rows[id].requester, rows[id].receiver)
    ensures RowsValid(rows[id := g], users)
  {
    var r := rows[id := g];
    forall i, j | i in r && j in r && IsPairRow(r[i], r[j].requester, r[j].receiver)
      ensures i == j
    {
      if i == id && j != id {
        assert IsPairRow(rows[id], rows[j].requester, rows[j].receiver);
      }
    }
  }

  /** Adding the first row of a pair of distinct existing users keeps the table well formed. */
  lemma NewPairInsert(rows: map<nat, Friendship>, users: map<UserId, User>, id: nat, g: Friendship)
    requires RowsValid(rows, users) && id !in rows
    requires RowsOfPair(rows, g.requester, g.receiver) == {}
    requires g.requester != g.receiver && g.requester in users && g.receiver in users
    ensures RowsValid(rows[id := g], users)
  {
  }

  // ---------------------------------------------------------------------------
  // The request state machine

  /**
   * What `sendRequest` from `a` to `b` makes of the pair's row: a new
   * PENDING row when there is none; an error for friends or for a request
   * already sent by `a`; acceptance when `b` had already asked `a`; and a
   * rejected row turned around into a fresh PENDING request from `a`.
   */
  function AfterRequest(existing: Option<Friendship>, a: UserId, b: UserId, now: Time): Outcome<Friendship>
    requires existing.Some? ==> IsPairRow(existing.value, a, b)
  {
    match existing
    case None => Ok(Friendship(a, b, PENDING, now, None))
    case Some(f) =>
      if f.status == ACCEPTED then Fail(AlreadyFriends)
      else if f.status == PENDING then
        if f.receiver == a then Ok(f.(status := ACCEPTED, acceptedAt := Some(now))) else Fail(AlreadyRequested)
      else Ok(f.(requester := a, receiver := b, status := PENDING))
  }

  datatype Status = NONE | FRIEND | SENT | RECEIVED

  /** The status of a row as seen by `viewer` (`getFriendshipStatus`' branches). */
  function StatusFor(f: Friendship, viewer: UserId): Status {
    if f.status == ACCEPTED then FRIEND
    else if f.status == PENDING then (if f.requester == viewer then SENT else RECEIVED)
    else NONE
  }

  /** A rejected row reads as no relation at all, and only a rejected row does. */
  lemma RejectedReadsAsNone(f: Friendship, viewer: UserId)
    ensures StatusFor(f, viewer) == NONE <==> f.status == REJECTED
  {
  }

  /**
   * Every successful request leaves the requester seeing SENT, or FRIEND
   * exactly when the other side's request was already pending; it fails
   * exactly for friends and for a request the requester already sent.
   */
  lemma {:induction false} RequestOutcome(existing: Option<Friendship>, a: UserId, b: UserId, now: Time)
    requires a != b
    requires existing.Some? ==> IsPairRow(existing.value, a, b)
    ensures AfterRequest(existing, a, b, now).Fail? <==>
      existing.Some? && (existing.value.status == ACCEPTED || (existing.value.status == PENDING && existing.value.requester == a))
    ensures AfterRequest(existing, a, b, now).Ok? ==>
      && IsPairRow(AfterRequest(existing, a, b, now).value, a, b)
      && StatusFor(AfterRequest(existing, a, b, now).value, a)
         == if existing.Some? && existing.value.status == PENDING then FRIEND else SENT
  {
    match existing
    case None =>
    case Some(f) =>
      if f.status == PENDING && f.receiver == a {
        assert f.requester == b;
      }
  }

  /** Two users who ask each other become friends, whoever asks first. */
  lemma CrossingRequestsMakeFriends(a: UserId, b: UserId, t1: Time, t2: Time)
    requires a != b
    ensures AfterRequest(None, a, b, t1).Ok?
    ensures var f := AfterRequest(None, a, b, t1).value;
      && AfterRequest(Some(f), b, a, t2).Ok?
      && StatusFor(AfterRequest(Some(f), b, a, t2).value, a) == FRIEND
      && StatusFor(AfterRequest(Some(f), b, a, t2).value, b) == FRIEND
  {
  }

  datatype Direction = Sent | Received

  /** A friendship as `toResponse` reports it to `viewer`. */
  datatype FriendView = FriendView(friendshipId: nat, userId: UserId, status: FriendshipStatus, direction: Option<Direction>)

  /**
   * `toResponse`: the other party of the row from the viewer's side, and a
   * direction only while the row is PENDING.
   */
  function ToResponse(id: nat, f: Friendship, viewer: UserId): (v: FriendView)
    ensures v.direction.Some? <==> f.status == PENDING
    ensures v.friendshipId == id && v.status == f.status
    ensures f.requester == viewer ==> v.userId == f.receiver
    ensures f.requester != viewer ==> v.userId == f.requester
  {
    FriendView(id, if f.requester == viewer then f.receiver else f.requester, f.status,
               if f.status == PENDING then Some(if f.requester == viewer then Sent else Received) else None)
  }

  /** The direction a pending row shows agrees with the status the viewer gets. */
  lemma DirectionMatchesStatus(id: nat, f: Friendship, viewer: UserId)
    requires f.status == PENDING
    ensures ToResponse(id, f, viewer).direction == Some(Sent) <==> StatusFor(f, viewer) == SENT
    ensures ToResponse(id, f, viewer).direction == Some(Received) <==> StatusFor(f, viewer) == RECEIVED
  {
  }

  /** One entry of a status answer: the status and, when a row was found, its id. */
  datatype StatusView = StatusView(status: Status, friendshipId: Option<nat>)

  class FriendService {
    const users: UserStore
    const notifier: NotificationService
    var table: Table<Friendship>

    ghost predicate Valid()
      reads this, users, notifier
    {
      && table.Valid()
      && RowsValid(table.rows, users.users)
      && notifier.Valid() && notifier.users == users
    }

    constructor(users: UserStore, notifier: NotificationService)
      requires notifier.Valid() && notifier.users == users
      ensures Valid() && this.users == users && this.notifier == notifier && table.rows == map[]
    {
      this.users := users;
      this.notifier := notifier;
      table := EmptyTable();
    }

    /**
     * `sendRequest`: a request to oneself and requests involving an unknown
     * user fail; otherwise the pair's row moves as `AfterRequest` says, and
     * only a newly created row notifies the receiver.
     */
    method SendRequest(a: UserId, b: UserId, now: Time) returns (r: Outcome<FriendView>)
      requires Valid()
      modifies this, notifier
      ensures Valid()
      ensures a == b ==> r == Fail(SelfTarget)
      ensures a != b && (a !in users.users || b !in users.users) ==> r == Fail(UserNotFound)
      ensures r.Fail? ==> table == old(table) && notifier.table == old(notifier.table)
      ensures a != b && a in users.users && b in users.users ==>
        forall id | id in RowsOfPair(old(table.rows), a, b) ::
          var next := AfterRequest(Some(old(table.rows)[id]), a, b, now);
          && (next.Fail? ==> r == Fail(next.error))
          && (next.Ok? ==>
                && r == Ok(ToResponse(id, next.value, a))
                && table == old(table).Update(id, next.value)
                && notifier.table == old(notifier.table))
      ensures a != b && a in users.users && b in users.users && RowsOfPair(old(table.rows), a, b) == {} ==>
        var name := users.users[a].name;
        var row := AfterRequest(None, a, b, now).value;
        && r == Ok(ToResponse(old(table.next), row, a))
        && table == old(table).Insert(row)
        && notifier.table == Created(old(notifier.table), users.users, b,
             Notice(a, name, "FRIEND_REQUEST", name + "님이 친구 요청을 보냈습니다", Some(old(table.next))), now)
    {
      if a == b {
        return Fail(SelfTarget);
      }
      if a !in users.users || b !in users.users {
        return Fail(UserNotFound);
      }
      var found := RowsOfPair(table.rows, a, b);
      if found != {} {
        var id :| id in found;
        assert found == {id};
        var next := AfterRequest(Some(table.rows[id]), a, b, now);
        if next.Fail? {
          return Fail(next.error);
        }
        RequestOutcome(Some(table.rows[id]), a, b, now);
        SamePairUpdate(table.rows, users.users, id, next.value);
        table := table.Update(id, next.value);
        return Ok(ToResponse(id, next.value, a));
      }
      var id := table.next;
      var row := AfterRequest(None, a, b, now).value;
      NewPairInsert(table.rows, users.users, id, row);
      table := table.Insert(row);
      var name := users.users[a].name;
      notifier.CreateAndSend(b, Notice(a, name, "FRIEND_REQUEST", name + "님이 친구 요청을 보냈습니다", Some(id)), now);
      r := Ok(ToResponse(id, row, a));
    }

    /**
     * `acceptRequest`: only the row's receiver may accept; the row becomes
     * ACCEPTED whatever its status was, and the requester is notified.
     */
    method AcceptRequest(id: nat, u: UserId, now: Time) returns (r: Outcome<FriendView>)
      requires Valid()
      modifies this, notifier
      ensures Valid()
      ensures id !in old(table.rows) ==> r == Fail(FriendshipNotFound)
      ensures id in old(table.rows) && old(table.rows)[id].receiver != u ==> r == Fail(Forbidden)
      ensures r.Ok? <==> id in old(table.rows) && old(table.rows)[id].receiver == u
      ensures r.Fail? ==> table == old(table) && notifier.table == old(notifier.table)
      ensures r.Ok? ==>
        var f := old(table.rows)[id].(status := ACCEPTED, acceptedAt := Some(now));
        var name := users.users[u].name;
        && table == old(table).Update(id, f)
        && r.value == ToResponse(id, f, u)
        && notifier.table == Created(old(notifier.table), users.users, f.requester,
             Notice(u, name, "FRIEND_ACCEPTED", name + "님이 친구 요청을 수락했습니다", Some(id)), now)
    {
      if id !in table.rows {
        return Fail(FriendshipNotFound);
      }
      if table.rows[id].receiver != u {
        return Fail(Forbidden);
      }
      var f := table.rows[id].(status := ACCEPTED, acceptedAt := Some(now));
      SamePairUpdate(table.rows, users.users, id, f);
      table := table.Update(id, f);
      var name := users.users[u].name;
      notifier.CreateAndSend(f.requester, Notice(u, name, "FRIEND_ACCEPTED", name + "님이 친구 요청을 수락했습니다", Some(id)), now);
      r := Ok(ToResponse(id, f, u));
    }

    /** `removeFriendship` (reject or unfriend): either party may delete the row. */
    method RemoveFriendship(id: nat, u: UserId) returns (r: Outcome<()>)
      requires Valid()
      modifies this
      ensures Valid()
      ensures id !in old(table.rows) ==> r == Fail(FriendshipNotFound)
      ensures r.Ok? <==> id in old(table.rows) && (old(table.rows)[id].requester == u || old(table.rows)[id].receiver == u)
      ensures id in old(table.rows) && old(table.rows)[id].requester != u && old(table.rows)[id].receiver != u ==>
        r == Fail(Forbidden)
      ensures r.Fail? ==> table == old(table)
      ensures r.Ok? ==> table == old(table).Delete({id})
    {
      if id !in table.rows {
        return Fail(FriendshipNotFound);
      }
      if table.rows[id].requester != u && table.rows[id].receiver != u {
        return Fail(Forbidden);
      }
      table := table.Delete({id});
      r := Ok(());
    }

    /**
     * `getFriendshipStatus(a, b)`: NONE when either user is unknown or there
     * is no row; otherwise the row's status from `a`'s side, with its id
     * (a REJECTED row reads NONE but still reports its id).
     */
    method GetFriendshipStatus(a: UserId, b: UserId) returns (v: StatusView)
      requires Valid()
      ensures a !in users.users || b !in users.users || RowsOfPair(table.rows, a, b) == {} ==> v == StatusView(NONE, None)
      ensures a in users.users && b in users.users ==>
        forall id | id in RowsOfPair(table.rows, a, b) :: v == StatusView(StatusFor(table.rows[id], a), Some(id))
    {
      if a !in users.users || b !in users.users {
        return StatusView(NONE, None);
      }
      var found := RowsOfPair(table.rows, a, b);
      if found == {} {
        return StatusView(NONE, None);
      }
      var id :| id in found;
      assert found == {id};
      v := StatusView(StatusFor(table.rows[id], a), Some(id));
    }

    /**
     * `getBatchFriendshipStatus(u, targets)`: an entry for every target,
     * NONE by default; when `u` exists, each PENDING or ACCEPTED row between
     * `u` and a target overwrites that target's entry with its status and id.
     */
    method GetBatchFriendshipStatus(u: UserId, targets: seq<UserId>) returns (result: map<UserId, StatusView>)
      requires Valid()
      ensures result.Keys == set t | t in targets
      ensures u !in users.users ==> forall t | t in result :: result[t] == StatusView(NONE, None)
      ensures u in users.users ==> forall t | t in result ::
        && ((forall id | id in WithTargets(table.rows, u, targets) :: !IsPairRow(table.rows[id], u, t)) ==>
              result[t] == StatusView(NONE, None))
        && (forall id | id in RowsOfPair(table.rows, u, t) && table.rows[id].status != REJECTED ::
              result[t] == StatusView(StatusFor(table.rows[id], u), Some(id)))
    {
      result := map[];
      var i := 0;
      while i < |targets|
        invariant i <= |targets|
        invariant result.Keys == set t | t in targets[..i]
        invariant forall t | t in result :: result[t] == StatusView(NONE, None)
      {
        assert targets[..i + 1] == targets[..i] + [targets[i]];
        result := result[targets[i] := StatusView(NONE, None)];
        i := i + 1;
      }
      assert targets[..i] == targets;
      if u !in users.users {
        return;
      }
      result := Overlay(table.rows, u, targets, result);
    }
  }

  /**
   * The second loop of `getBatchFriendshipStatus`: each PENDING or ACCEPTED
   * row between `u` and a target overwrites that target's entry.
   */
  method Overlay(rows: map<nat, Friendship>, u: UserId, targets: seq<UserId>, start: map<UserId, StatusView>)
    returns (result: map<UserId, StatusView>)
    requires OnePerPair(rows)
    ensures result.Keys == start.Keys
    ensures forall t | t in result && (forall id | id in WithTargets(rows, u, targets) :: !IsPairRow(rows[id], u, t)) ::
      result[t] == start[t]
    ensures forall t, id | t in result && id in WithTargets(rows, u, targets) && IsPairRow(rows[id], u, t) ::
      result[t] == StatusView(StatusFor(rows[id], u), Some(id))
  {
    result := start;
    var all := WithTargets(rows, u, targets);
    var rest := all;
    while rest != {}
      invariant rest <= all
      invariant result.Keys == start.Keys
      invariant forall t | t in result && (forall id | id in all && id !in rest :: !IsPairRow(rows[id], u, t)) ::
        result[t] == start[t]
      invariant forall t, id | t in result && id in all && id !in rest && IsPairRow(rows[id], u, t) ::
        result[t] == StatusView(StatusFor(rows[id], u), Some(id))
      decreases |rest|
    {
      var id :| id in rest;
      var f := rows[id];
      var t := if f.requester == u then f.receiver else f.requester;
      assert IsPairRow(f, u, t);
      OnlyRowOfPair(rows, id, u, t);
      if t in result {
        result := result[t := StatusView(StatusFor(f, u), Some(id))];
      }
      rest := rest - {id};
    }
  }

  /** Under one row per pair, the row of a pair is the only one. */
  lemma OnlyRowOfPair(rows: map<nat, Friendship>, id: nat, u: UserId, t: UserId)
    requires OnePerPair(rows) && id in rows && IsPairRow(rows[id], u, t)
    ensures forall j | j in rows && IsPairRow(rows[j], u, t) :: j == id
  {
    forall j | j in rows && IsPairRow(rows[j], u, t)
      ensures j == id
    {
      assert IsPairRow(rows[j], rows[id].requester, rows[id].receiver);
    }
  }
}
