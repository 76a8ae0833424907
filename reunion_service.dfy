/**
 * `ReunionService`: creating clubs, inviting and removing members, leaving
 * with leader succession, invite codes and join requests, the treasurer,
 * fees and fee groups, and meeting votes. Every public method is one
 * transaction: when it fails, no table changes.
 */
module Clubs {
  import opened Common
  import opened Users
  import opened Notifications
  import opened Reunions
  import opened Fees

  /** The invite codes in use. */
  function Codes(rows: map<nat, Reunion>): (r: set<string>)
    ensures forall c :: c in r <==> exists id | id in rows :: rows[id].inviteCode == c
  {
    set id | id in rows :: rows[id].inviteCode
  }

  /** `findByInviteCode`: the column is unique. */
  function WithCode(rows: map<nat, Reunion>, code: string): (r: set<nat>)
    ensures forall id :: id in r <==> id in rows && rows[id].inviteCode == code
  {
    set id | id in rows && rows[id].inviteCode == code
  }

  /** Two clubs sharing a code. */
  predicate SameCode(rows: map<nat, Reunion>, i: nat, j: nat) {
    i in rows && j in rows && rows[i].inviteCode == rows[j].inviteCode
  }

  /** The unique key on `invite_code`. */
  ghost predicate UniqueCodes(rows: map<nat, Reunion>) {
    forall i, j {:trigger SameCode(rows, i, j)} :: SameCode(rows, i, j) ==> i == j
  }

  /** A code names at most one club. */
  lemma OneClubPerCode(rows: map<nat, Reunion>, code: string)
    requires UniqueCodes(rows)
    ensures forall i, j | i in WithCode(rows, code) && j in WithCode(rows, code) :: i == j
  {
    forall i, j | i in WithCode(rows, code) && j in WithCode(rows, code)
      ensures i == j
    {
      assert SameCode(rows, i, j);
    }
  }

  /** The listed users `createReunion` enrols as members, in list order: known users other than the creator. */
  function Eligible(ids: seq<UserId>, creator: UserId, known: map<UserId, User>): (r: seq<UserId>)
    ensures forall u :: u in r <==> u in ids && u != creator && u in known
    decreases |ids|
  {
    if ids == [] then []
    else
      var front := Eligible(ids[..|ids| - 1], creator, known);
      var m := ids[|ids| - 1];
      assert forall u :: u in ids <==> u in ids[..|ids| - 1] || u == m;
      if m != creator && m in known then front + [m] else front
  }

  /**
   * No user who would be enrolled (neither the creator nor unknown) is
   * listed twice: a second row for the same member breaks the unique key.
   */
  predicate InviteesDistinct(ids: seq<UserId>, creator: UserId, known: map<UserId, User>) {
    forall a, b | 0 <= a < b < |ids| && ids[a] == ids[b] :: ids[a] == creator || ids[a] !in known
  }

  /** A listed user the prefix does not already hold, the creator or an unknown user keeps the prefix free of repeats. */
  lemma InviteesStep(ids: seq<UserId>, i: nat, creator: UserId, known: map<UserId, User>)
    requires i < |ids| && InviteesDistinct(ids[..i], creator, known)
    requires ids[i] == creator || ids[i] !in known || ids[i] !in ids[..i]
    ensures InviteesDistinct(ids[..i + 1], creator, known)
  {
    var p, q := ids[..i + 1], ids[..i];
    forall a, b | 0 <= a < b < |p| && p[a] == p[b]
      ensures p[a] == creator || p[a] !in known
    {
      assert q[a] == p[a];
      if b < i {
        assert q[b] == p[b];
      }
    }
  }

  /** A user to be enrolled who already occurs earlier in the list is a repeat. */
  lemma RepeatFound(ids: seq<UserId>, i: nat, creator: UserId, known: map<UserId, User>)
    requires i < |ids| && ids[i] != creator && ids[i] in known && ids[i] in ids[..i]
    ensures !InviteesDistinct(ids, creator, known)
  {
    var a :| 0 <= a < i && ids[..i][a] == ids[i];
    assert ids[a] == ids[i];
  }

  /**
   * The invitation loop of `createReunion` on its own: it walks the list,
   * skips the creator and unknown users, and fails at the first user it
   * would enrol a second time.
   */
  method CollectInvitees(ids: seq<UserId>, creator: UserId, known: map<UserId, User>)
    returns (invited: Option<seq<UserId>>)
    ensures invited.None? <==> !InviteesDistinct(ids, creator, known)
    ensures invited.Some? ==> invited.value == Eligible(ids, creator, known) && Distinct(invited.value)
  {
    var acc: seq<UserId> := [];
    for i := 0 to |ids|
      invariant acc == Eligible(ids[..i], creator, known)
      invariant Distinct(acc)
      invariant InviteesDistinct(ids[..i], creator, known)
    {
      var m := ids[i];
      assert ids[..i + 1][..i] == ids[..i];
      if m == creator || m !in known {
        InviteesStep(ids, i, creator, known);
        continue;
      }
      if m in acc {
        RepeatFound(ids, i, creator, known);
        return None;
      }
      InviteesStep(ids, i, creator, known);
      AppendFresh(acc, m);
      acc := acc + [m];
    }
    assert ids[..|ids|] == ids;
    return Some(acc);
  }

  /**
   * The listed users `inviteMembers` enrols, in list order: known users not
   * yet in the club, each once (the membership check sees the rows saved
   * earlier in the same loop).
   */
  function Newcomers(ids: seq<UserId>, rid: nat, rows: map<nat, Member>, known: map<UserId, User>): (r: seq<UserId>)
    ensures forall u :: u in r <==> u in ids && u in known && !IsMember(rows, rid, u)
    ensures Distinct(r)
    decreases |ids|
  {
    if ids == [] then []
    else
      var front := Newcomers(ids[..|ids| - 1], rid, rows, known);
      var m := ids[|ids| - 1];
      assert forall u :: u in ids <==> u in ids[..|ids| - 1] || u == m;
      if m in known && !IsMember(rows, rid, m) && m !in front then front + [m] else front
  }

  /** What a method demands of the caller's membership. */
  datatype Need = ANY_MEMBER | LEAD | MANAGE_FEES

  predicate Permits(need: Need, role: MemberRole) {
    match need
    case ANY_MEMBER => true
    case LEAD => IsLeaderOrAdmin(role)
    case MANAGE_FEES => CanManageFees(role)
  }

  /** The role of a member; `None` for a non-member. */
  ghost function RoleIn(rows: map<nat, Member>, rid: nat, u: UserId): Option<MemberRole> {
    if IsMember(rows, rid, u) then
      var id :| id in RowsOf(rows, rid, u);
      Some(rows[id].role)
    else None
  }

  lemma RoleInRow(rows: map<nat, Member>, id: nat)
    requires OnePerMember(rows) && id in rows
    ensures RoleIn(rows, rows[id].reunion, rows[id].user) == Some(rows[id].role)
  {
    OnlyRowOf(rows, id);
  }

  /**
   * The common guard of the club methods: the caller must be a user, a
   * member of the club, and hold a role the method needs, checked in that
   * order.
   */
  ghost function Clearance(users: map<UserId, User>, rows: map<nat, Member>, rid: nat, u: UserId, need: Need)
    : Option<Error>
  {
    if u !in users then Some(UserNotFound)
    else if !IsMember(rows, rid, u) then Some(NotMember)
    else if !Permits(need, RoleIn(rows, rid, u).value) then Some(Forbidden)
    else None
  }

  // ---------------------------------------------------------------------------
  // The invariants of the club tables, over the set of existing club ids

  /** Clubs: each has a well-formed invite code, and no two share one. */
  ghost predicate ClubTable(t: Table<Reunion>) {
    && t.Valid()
    && UniqueCodes(t.rows)
    && (forall id | id in t.rows :: IsInviteCode(t.rows[id].inviteCode))
  }

  /** Memberships: one per user and club, at most one treasurer per club, each of an existing club. */
  ghost predicate MemberTable(t: Table<Member>, clubs: set<nat>) {
    && t.Valid()
    && OnePerMember(t.rows)
    && AtMostOneTreasurer(t.rows)
    && (forall id | id in t.rows :: t.rows[id].reunion in clubs)
  }

  /** Join requests: one per user and club, each of an existing club. */
  ghost predicate RequestTable(t: Table<JoinRequest>, clubs: set<nat>) {
    && t.Valid()
    && OneRequestPerUser(t.rows)
    && (forall id | id in t.rows :: t.rows[id].reunion in clubs)
  }

  /**
   * Fees and fee groups belong to existing clubs; a fee of a group belongs
   * to the group's club, charges the group's amount, and is the only fee
   * of its user in the group.
   */
  ghost predicate FeeTables(fs: Table<Fee>, gs: Table<FeeGroup>, clubs: set<nat>) {
    && fs.Valid() && gs.Valid()
    && (forall g | g in gs.rows :: gs.rows[g].reunion in clubs)
    && (forall id | id in fs.rows :: fs.rows[id].reunion in clubs)
    && (forall id | id in fs.rows && fs.rows[id].group.Some? ::
          && fs.rows[id].group.value in gs.rows
          && gs.rows[fs.rows[id].group.value].reunion == fs.rows[id].reunion
          && fs.rows[id].amount == gs.rows[fs.rows[id].group.value].amountPerMember)
    && (forall i, j {:trigger SameGroupFee(fs.rows, i, j)} :: SameGroupFee(fs.rows, i, j) ==> i == j)
  }

  /** Two fees of the same user in the same fee group. */
  predicate SameGroupFee(rows: map<nat, Fee>, i: nat, j: nat) {
    i in rows && j in rows && rows[i].group.Some? && rows[i].group == rows[j].group && rows[i].user == rows[j].user
  }

  /** Votes: one per voter and option, each on an existing option. */
  ghost predicate VoteTables(os: Table<VoteOption>, vs: Table<Vote>) {
    && os.Valid() && vs.Valid()
    && OneVotePerVoter(vs.rows)
    && (forall id | id in vs.rows :: vs.rows[id].option in os.rows)
  }

  /** The invariants of the club service's tables, over their values. */
  ghost predicate ServiceTables(reunions: Table<Reunion>, members: Table<Member>, requests: Table<JoinRequest>,
                                fees: Table<Fee>, feeGroups: Table<FeeGroup>, options: Table<VoteOption>, votes: Table<Vote>) {
    && ClubTable(reunions)
    && MemberTable(members, reunions.rows.Keys)
    && RequestTable(requests, reunions.rows.Keys)
    && FeeTables(fees, feeGroups, reunions.rows.Keys)
    && VoteTables(options, votes)
  }

  /** Founding a club with a fresh code, its creator as LEADER and distinct invitees as MEMBERs keeps every invariant. */
  lemma FoundingKeepsTables(reunions: Table<Reunion>, members: Table<Member>, requests: Table<JoinRequest>,
                            fees: Table<Fee>, feeGroups: Table<FeeGroup>, options: Table<VoteOption>, votes: Table<Vote>,
                            club: Reunion, invited: seq<UserId>)
    requires ServiceTables(reunions, members, requests, fees, feeGroups, options, votes)
    requires IsInviteCode(club.inviteCode) && club.inviteCode !in Codes(reunions.rows)
    requires Distinct(invited) && club.createdBy !in invited
    ensures ServiceTables(reunions.Insert(club),
      Enrol(Enrol(members, reunions.next, [club.createdBy], LEADER), reunions.next, invited, MEMBER),
      requests, fees, feeGroups, options, votes)
  {
    var clubs := reunions.rows.Keys;
    ReunionService.Founding(members, clubs, reunions.next, club.createdBy, invited);
    ClubAdded(reunions, club);
    MoreClubs(requests, fees, feeGroups, clubs, clubs + {reunions.next});
  }

  /** A club being added takes nothing away from the invariants of the other tables. */
  lemma MoreClubs(requests: Table<JoinRequest>, fs: Table<Fee>, gs: Table<FeeGroup>, clubs: set<nat>, more: set<nat>)
    requires RequestTable(requests, clubs) && FeeTables(fs, gs, clubs) && clubs <= more
    ensures RequestTable(requests, more) && FeeTables(fs, gs, more)
  {
  }

  /** Adding a club with an unused, well-formed code keeps the codes unique. */
  lemma ClubAdded(t: Table<Reunion>, club: Reunion)
    requires ClubTable(t) && IsInviteCode(club.inviteCode) && club.inviteCode !in Codes(t.rows)
    ensures ClubTable(t.Insert(club))
  {
    var r := t.Insert(club);
    forall i, j | SameCode(r.rows, i, j)
      ensures i == j
    {
      if i != t.next && j != t.next {
        assert SameCode(t.rows, i, j);
      }
    }
  }

  /**
   * Enrolling distinct users who are not yet members of an existing club,
   * in any role but TREASURER, keeps the membership invariant; a user then
   * belongs to a club exactly when they did before or were enrolled into it.
   */
  lemma Enrolled(t: Table<Member>, clubs: set<nat>, rid: nat, us: seq<UserId>, role: MemberRole)
    requires MemberTable(t, clubs) && rid in clubs && Distinct(us) && role != TREASURER
    requires forall u | u in us :: !IsMember(t.rows, rid, u)
    ensures MemberTable(Enrol(t, rid, us, role), clubs)
    ensures forall c, u :: IsMember(Enrol(t, rid, us, role).rows, c, u) <==> IsMember(t.rows, c, u) || (c == rid && u in us)
  {
    EnrolKeepsKeys(t, rid, us, role);
    forall c, u
      ensures IsMember(Enrol(t, rid, us, role).rows, c, u) <==> IsMember(t.rows, c, u) || (c == rid && u in us)
    {
      EnrolMembership(t, rid, us, role, c, u);
    }
  }

  /** Removing a membership row keeps the membership invariant. */
  lemma Unenrolled(t: Table<Member>, clubs: set<nat>, id: nat)
    requires MemberTable(t, clubs) && id in t.rows
    ensures MemberTable(t.Delete({id}), clubs)
    ensures forall c, u :: IsMember(t.Delete({id}).rows, c, u) <==>
      IsMember(t.rows, c, u) && !(c == t.rows[id].reunion && u == t.rows[id].user)
  {
    var r := t.Delete({id});
    forall i, j | SameMember(r.rows, i, j)
      ensures i == j
    {
      assert SameMember(t.rows, i, j);
    }
    forall i, j | TwoTreasurers(r.rows, i, j)
      ensures i == j
    {
      assert TwoTreasurers(t.rows, i, j);
    }
    forall c, u
      ensures IsMember(r.rows, c, u) <==> IsMember(t.rows, c, u) && !(c == t.rows[id].reunion && u == t.rows[id].user)
    {
      if IsMember(t.rows, c, u) && !(c == t.rows[id].reunion && u == t.rows[id].user) {
        var k :| k in RowsOf(t.rows, c, u);
        assert k in RowsOf(r.rows, c, u);
      }
      if IsMember(r.rows, c, u) {
        var k :| k in RowsOf(r.rows, c, u);
        assert k in RowsOf(t.rows, c, u);
        if c == t.rows[id].reunion && u == t.rows[id].user {
          assert SameMember(t.rows, k, id);
        }
      }
    }
  }

  /** Changing a member's role keeps the unique key; a role other than TREASURER cannot add a second treasurer. */
  lemma Relabelled(t: Table<Member>, clubs: set<nat>, id: nat, role: MemberRole)
    requires MemberTable(t, clubs) && id in t.rows
    requires role == TREASURER ==> TreasurersOf(t.rows, t.rows[id].reunion) <= {id}
    ensures MemberTable(t.Update(id, t.rows[id].(role := role)), clubs)
    ensures forall c, v :: IsMember(t.Update(id, t.rows[id].(role := role)).rows, c, v) == IsMember(t.rows, c, v)
  {
    var r := t.Update(id, t.rows[id].(role := role));
    forall c, v
      ensures IsMember(r.rows, c, v) == IsMember(t.rows, c, v)
    {
      assert RowsOf(r.rows, c, v) == RowsOf(t.rows, c, v);
    }
    forall i, j | SameMember(r.rows, i, j)
      ensures i == j
    {
      assert SameMember(t.rows, i, j);
    }
    forall i, j | TwoTreasurers(r.rows, i, j)
      ensures i == j
    {
      if i != id && j != id {
        assert TwoTreasurers(t.rows, i, j);
      }
    }
  }

  /** The users of the given membership rows, in the rows' order. */
  function UsersOf(rows: map<nat, Member>, ids: seq<nat>): (us: seq<UserId>)
    requires forall i | 0 <= i < |ids| :: ids[i] in rows
    ensures |us| == |ids| && forall i | 0 <= i < |ids| :: us[i] == rows[ids[i]].user
  {
    seq(|ids|, i requires 0 <= i < |ids| && ids[i] in rows => rows[ids[i]].user)
  }

  /** A new join request is the user's only request for the club. */
  lemma RequestAdded(t: Table<JoinRequest>, clubs: set<nat>, q: JoinRequest)
    requires RequestTable(t, clubs) && q.reunion in clubs && RequestsOf(t.rows, q.reunion, q.user) == {}
    ensures RequestTable(t.Insert(q), clubs)
  {
    var r := t.Insert(q);
    forall i, j | SameRequester(r.rows, i, j)
      ensures i == j
    {
      if i != t.next && j != t.next {
        assert SameRequester(t.rows, i, j);
      }
    }
  }

  /** Processing a request changes its status and time, never whose request it is. */
  lemma RequestProcessed(t: Table<JoinRequest>, clubs: set<nat>, id: nat, status: JoinStatus, now: Time)
    requires RequestTable(t, clubs) && id in t.rows
    ensures RequestTable(t.Update(id, t.rows[id].(status := status, processedAt := Some(now))), clubs)
  {
    var r := t.Update(id, t.rows[id].(status := status, processedAt := Some(now)));
    forall i, j | SameRequester(r.rows, i, j)
      ensures i == j
    {
      assert SameRequester(t.rows, i, j);
    }
  }

  /**
   * Replacing a club's code by a well-formed unused one keeps the codes
   * unique; the new code then leads to that club and the old one nowhere.
   */
  lemma CodeReplaced(t: Table<Reunion>, id: nat, code: string)
    requires ClubTable(t) && id in t.rows && IsInviteCode(code) && code !in Codes(t.rows)
    ensures ClubTable(t.Update(id, t.rows[id].(inviteCode := code)))
    ensures WithCode(t.Update(id, t.rows[id].(inviteCode := code)).rows, code) == {id}
    ensures WithCode(t.Update(id, t.rows[id].(inviteCode := code)).rows, t.rows[id].inviteCode) == {}
  {
    var r := t.Update(id, t.rows[id].(inviteCode := code));
    forall i, j | SameCode(r.rows, i, j)
      ensures i == j
    {
      if i != id && j != id {
        assert SameCode(t.rows, i, j);
      }
    }
    forall k | k in WithCode(r.rows, t.rows[id].inviteCode)
      ensures false
    {
      assert SameCode(t.rows, k, id);
    }
  }

  /**
   * Every club is found by its own code, however the user types it: the
   * lookup upper-cases the input, and a code has no small letters.
   */
  lemma CodeFindsClub(t: Table<Reunion>, id: nat)
    requires ClubTable(t) && id in t.rows
    ensures WithCode(t.rows, ToUpper(t.rows[id].inviteCode)) == {id}
    ensures WithCode(t.rows, ToUpper(ToLower(t.rows[id].inviteCode))) == {id}
  {
    InviteCodeIgnoresCase(t.rows[id].inviteCode);
    OneClubPerCode(t.rows, t.rows[id].inviteCode);
  }

  // ---------------------------------------------------------------------------
  // Fees, fee groups and votes

  /** `memberRepository.findByReunion` mapped to users: the club's members in membership order. */
  ghost function Roster(rows: map<nat, Member>, rid: nat): seq<UserId> {
    UsersOf(rows, Ascending(MembersOf(rows, rid)))
  }

  /** The roster lists every member of the club, and each once. */
  lemma RosterMeaning(rows: map<nat, Member>, rid: nat)
    requires OnePerMember(rows)
    ensures Distinct(Roster(rows, rid))
    ensures forall u :: u in Roster(rows, rid) <==> IsMember(rows, rid, u)
  {
    var ids := Ascending(MembersOf(rows, rid));
    var us := Roster(rows, rid);
    forall i, j | 0 <= i < j < |us|
      ensures us[i] != us[j]
    {
      assert ids[i] < ids[j];
      assert !SameMember(rows, ids[i], ids[j]);
    }
    forall u
      ensures u in us <==> IsMember(rows, rid, u)
    {
      if u in us {
        var i :| 0 <= i < |us| && us[i] == u;
        assert ids[i] in RowsOf(rows, rid, u);
      }
      if IsMember(rows, rid, u) {
        var id :| id in RowsOf(rows, rid, u);
        var i :| 0 <= i < |ids| && ids[i] == id;
        assert us[i] == u;
      }
    }
  }

  /** Changing a fee's payment fields keeps the fee tables' invariant. */
  lemma FeeRewritten(fs: Table<Fee>, gs: Table<FeeGroup>, clubs: set<nat>, id: nat, f: Fee)
    requires FeeTables(fs, gs, clubs) && id in fs.rows
    requires f.reunion == fs.rows[id].reunion && f.group == fs.rows[id].group
    requires f.user == fs.rows[id].user && f.amount == fs.rows[id].amount
    ensures FeeTables(fs.Update(id, f), gs, clubs)
  {
    var r := fs.Update(id, f);
    forall i, j | SameGroupFee(r.rows, i, j)
      ensures i == j
    {
      assert SameGroupFee(fs.rows, i, j);
    }
  }

  /** A new group of an existing club, charging each listed user once, keeps the invariant. */
  lemma GroupCharged(fs: Table<Fee>, gs: Table<FeeGroup>, clubs: set<nat>, g: FeeGroup, us: seq<UserId>)
    requires FeeTables(fs, gs, clubs) && g.reunion in clubs && Distinct(us)
    ensures FeeTables(Charge(fs, g.reunion, gs.next, us, g.amountPerMember), gs.Insert(g), clubs)
  {
    forall id | id in fs.rows
      ensures fs.rows[id].group != Some(gs.next)
    {
      if fs.rows[id].group.Some? {
        assert fs.rows[id].group.value in gs.rows;
      }
    }
    ChargedKeys(fs, g.reunion, gs.next, us, g.amountPerMember);
  }

  /** Charging distinct users for a group no fee refers to yet keeps one fee per user and group. */
  lemma ChargedKeys(t: Table<Fee>, rid: nat, gid: nat, us: seq<UserId>, amount: int)
    requires t.Valid() && Distinct(us)
    requires forall id | id in t.rows :: t.rows[id].group != Some(gid)
    requires forall i, j {:trigger SameGroupFee(t.rows, i, j)} :: SameGroupFee(t.rows, i, j) ==> i == j
    ensures forall i, j {:trigger SameGroupFee(Charge(t, rid, gid, us, amount).rows, i, j)} ::
      SameGroupFee(Charge(t, rid, gid, us, amount).rows, i, j) ==> i == j
  {
    var r := Charge(t, rid, gid, us, amount);
    forall i: nat, j: nat | SameGroupFee(r.rows, i, j)
      ensures i == j
    {
      if i in t.rows && j in t.rows {
        assert SameGroupFee(t.rows, i, j);
      } else if i !in t.rows && j !in t.rows {
        assert i >= t.next && j >= t.next;
        assert us[i - t.next] == us[j - t.next];
      }
    }
  }

  /** A fee of a group for a user the group does not charge yet keeps the invariant. */
  lemma FeeAdded(fs: Table<Fee>, gs: Table<FeeGroup>, clubs: set<nat>, gid: nat, u: UserId)
    requires FeeTables(fs, gs, clubs) && gid in gs.rows && FeesOfIn(fs.rows, gid, u) == {}
    ensures FeeTables(fs.Insert(NewFee(gs.rows[gid].reunion, Some(gid), u, gs.rows[gid].amountPerMember)), gs, clubs)
  {
    var r := fs.Insert(NewFee(gs.rows[gid].reunion, Some(gid), u, gs.rows[gid].amountPerMember));
    forall i, j | SameGroupFee(r.rows, i, j)
      ensures i == j
    {
      if i != fs.next && j != fs.next {
        assert SameGroupFee(fs.rows, i, j);
      }
    }
  }

  /** Deleting fees, or a group together with its fees, keeps the invariant. */
  lemma FeesDropped(fs: Table<Fee>, gs: Table<FeeGroup>, clubs: set<nat>, ids: set<nat>, gid: Option<nat>)
    requires FeeTables(fs, gs, clubs)
    requires gid.Some? ==> GroupFees(fs.rows, gid.value) <= ids
    ensures FeeTables(fs.Delete(ids), if gid.Some? then gs.Delete({gid.value}) else gs, clubs)
  {
    var r := fs.Delete(ids);
    forall i, j | SameGroupFee(r.rows, i, j)
      ensures i == j
    {
      assert SameGroupFee(fs.rows, i, j);
    }
  }

  /**
   * A new group charges exactly the listed users, one unpaid fee each at
   * the group's amount.
   */
  lemma ChargeMeaning(t: Table<Fee>, g: FeeGroup, gid: nat, us: seq<UserId>)
    requires t.Valid() && forall id | id in t.rows :: t.rows[id].group != Some(gid)
    ensures forall u :: FeesOfIn(Charge(t, g.reunion, gid, us, g.amountPerMember).rows, gid, u) != {} <==> u in us
    ensures forall id | id in GroupFees(Charge(t, g.reunion, gid, us, g.amountPerMember).rows, gid) ::
      Charge(t, g.reunion, gid, us, g.amountPerMember).rows[id] ==
        NewFee(g.reunion, Some(gid), Charge(t, g.reunion, gid, us, g.amountPerMember).rows[id].user, g.amountPerMember)
  {
    var r := Charge(t, g.reunion, gid, us, g.amountPerMember);
    forall u
      ensures FeesOfIn(r.rows, gid, u) != {} <==> u in us
    {
      if u in us {
        var k :| 0 <= k < |us| && us[k] == u;
        assert t.next + k in FeesOfIn(r.rows, gid, u);
      }
      if FeesOfIn(r.rows, gid, u) != {} {
        var id :| id in FeesOfIn(r.rows, gid, u);
        assert id !in t.rows;
        assert us[id - t.next] == u;
      }
    }
  }

  /**
   * The figures `getFeeGroups` reports for a group, over its fees in id
   * order (`findByFeeGroup`).
   */
  ghost function GroupFigures(fs: map<nat, Fee>, gs: map<nat, FeeGroup>, gid: nat): GroupTotals
    requires gid in gs
  {
    Totals(gs[gid], FeeList(fs, Ascending(GroupFees(fs, gid))))
  }

  /** A list without repetitions of exactly the ids of a set is as long as the set is large. */
  lemma {:induction false} DistinctLength(ids: seq<nat>, all: set<nat>)
    requires Distinct(ids) && forall id :: id in ids <==> id in all
    ensures |ids| == |all|
    decreases |ids|
  {
    if ids == [] {
      assert all == {};
    } else {
      var front := ids[..|ids| - 1];
      DropLast(ids, front, all);
      DistinctLength(front, all - {ids[|ids| - 1]});
    }
  }

  /**
   * A group's figures count its stored fees: its members, the PAID ones,
   * and the rest (PARTIAL counts as unpaid); since every fee of a group
   * charges the group's amount, the paid total is that amount per paid
   * member, and the expected total that amount per member, both as `int`.
   */
  lemma GroupFiguresMeaning(fs: Table<Fee>, gs: Table<FeeGroup>, clubs: set<nat>, gid: nat)
    requires FeeTables(fs, gs, clubs) && gid in gs.rows
    ensures var t := GroupFigures(fs.rows, gs.rows, gid);
      var ids := GroupFees(fs.rows, gid);
      && t.totalMembers == |ids|
      && t.paidCount == |InStatus(fs.rows, ids, PAID)|
      && t.unpaidCount == |InStatus(fs.rows, ids, UNPAID)| + |InStatus(fs.rows, ids, PARTIAL)|
      && t.totalAmount == Wrap32(gs.rows[gid].amountPerMember * |ids|)
      && t.totalPaid == Wrap32(gs.rows[gid].amountPerMember * t.paidCount)
  {
    var ids := GroupFees(fs.rows, gid);
    var order := Ascending(ids);
    assert forall i | 0 <= i < |order| :: fs.rows[order[i]].amount == gs.rows[gid].amountPerMember;
    FiguresOfList(fs.rows, ids, order, gs.rows[gid]);
  }

  /** The figures over a list without repetitions of exactly the fees of a set, each charging the group's amount. */
  lemma FiguresOfList(rows: map<nat, Fee>, ids: set<nat>, order: seq<nat>, g: FeeGroup)
    requires OldestFirstOrder(order) && forall id :: id in order <==> id in ids
    requires forall i | 0 <= i < |order| :: order[i] in rows && rows[order[i]].amount == g.amountPerMember
    ensures var t := Totals(g, FeeList(rows, order));
      && t.totalMembers == |ids|
      && t.paidCount == |InStatus(rows, ids, PAID)|
      && t.unpaidCount == |InStatus(rows, ids, UNPAID)| + |InStatus(rows, ids, PARTIAL)|
      && t.totalAmount == Wrap32(g.amountPerMember * |ids|)
      && t.totalPaid == Wrap32(g.amountPerMember * t.paidCount)
  {
    var list := FeeList(rows, order);
    DistinctLength(order, ids);
    CountIsCardinality(rows, order, ids, PAID);
    CountIsCardinality(rows, order, ids, UNPAID);
    CountIsCardinality(rows, order, ids, PARTIAL);
    TotalsMeaning(g, list);
  }

  /** The groups of a club as `getFeeGroups` lists them. */
  datatype GroupView = GroupView(id: nat, figures: GroupTotals)

  /** `toFeeGroupResponse`'s figures, over `findByFeeGroup`. */
  method FiguresOf(fs: Table<Fee>, gs: map<nat, FeeGroup>, gid: nat) returns (t: GroupTotals)
    requires fs.Valid() && gid in gs
    ensures t == GroupFigures(fs.rows, gs, gid)
  {
    var ids := SelectOldest(fs, (f: Fee) => f.group == Some(gid));
    OrderedListOf(ids, GroupFees(fs.rows, gid));
    t := Totals(gs[gid], FeeList(fs.rows, ids));
  }

  /** The stream of `getFeeGroups`: each listed group with its figures, in list order. */
  method ViewsOf(fs: Table<Fee>, gs: map<nat, FeeGroup>, gids: seq<nat>) returns (views: seq<GroupView>)
    requires fs.Valid() && forall i | 0 <= i < |gids| :: gids[i] in gs
    ensures |views| == |gids|
    ensures forall i | 0 <= i < |gids| :: views[i] == GroupView(gids[i], GroupFigures(fs.rows, gs, gids[i]))
  {
    views := [];
    for i := 0 to |gids|
      invariant |views| == i
      invariant forall k | 0 <= k < i :: views[k] == GroupView(gids[k], GroupFigures(fs.rows, gs, gids[k]))
    {
      var figures := FiguresOf(fs, gs, gids[i]);
      views := views + [GroupView(gids[i], figures)];
    }
  }

  /** The message `createFeeGroup` sends: the club's name in brackets, then the amount in won. */
  function FeeCreatedText(club: string, amount: int): string {
    "[" + club + "] 회비 " + IntToString(amount) + "원이 등록되었습니다"
  }

  /** The message `toggleFeePayment` sends for the fee's new status. */
  function ToggleMessage(s: FeeStatus): string {
    if s == PAID then "회비 납부가 확인되었습니다" else "회비 납부가 취소되었습니다"
  }

  /** `vote` on the table: the user's vote for the option is withdrawn if present, else cast. */
  function Toggle(vs: Table<Vote>, o: nat, u: UserId): (r: Table<Vote>)
    requires vs.Valid()
  {
    if VotesOf(vs.rows, o, u) != {} then vs.Delete(VotesOf(vs.rows, o, u)) else vs.Insert(Vote(o, u))
  }

  /** Withdrawing a user's vote removes exactly that voter from that option. */
  lemma VotersAfterDelete(vs: Table<Vote>, o: nat, u: UserId)
    ensures forall p, v :: v in Voters(vs.Delete(VotesOf(vs.rows, o, u)).rows, p) <==> v in Voters(vs.rows, p) && (p != o || v != u)
  {
    var r := vs.Delete(VotesOf(vs.rows, o, u));
    forall p, v | v in Voters(vs.rows, p) && (p != o || v != u)
      ensures v in Voters(r.rows, p)
    {
      var id :| id in vs.rows && vs.rows[id] == Vote(p, v);
      assert id in r.rows;
    }
  }

  /** Casting a vote adds exactly that voter to that option. */
  lemma VotersAfterInsert(vs: Table<Vote>, o: nat, u: UserId)
    requires vs.Valid()
    ensures forall p, v :: v in Voters(vs.Insert(Vote(o, u)).rows, p) <==> v in Voters(vs.rows, p) || (p == o && v == u)
  {
    var r := vs.Insert(Vote(o, u));
    forall p, v | v in Voters(r.rows, p)
      ensures v in Voters(vs.rows, p) || (p == o && v == u)
    {
      var id :| id in r.rows && r.rows[id] == Vote(p, v);
      if id != vs.next {
        assert vs.rows[id] == Vote(p, v);
      }
    }
    assert r.rows[vs.next] == Vote(o, u);
  }

  /**
   * Voting flips the user's vote for the option and touches no other vote;
   * voting twice gives back the same voters for every option.
   */
  lemma ToggleFlips(vs: Table<Vote>, o: nat, u: UserId)
    requires vs.Valid()
    ensures u in Voters(Toggle(vs, o, u).rows, o) <==> u !in Voters(vs.rows, o)
    ensures forall p, v | p != o || v != u :: v in Voters(Toggle(vs, o, u).rows, p) <==> v in Voters(vs.rows, p)
    ensures forall p :: Voters(Toggle(Toggle(vs, o, u), o, u).rows, p) == Voters(vs.rows, p)
  {
    var r := Toggle(vs, o, u);
    if VotesOf(vs.rows, o, u) != {} {
      var k :| k in VotesOf(vs.rows, o, u);
      assert u in Voters(vs.rows, o);
      VotersAfterDelete(vs, o, u);
      assert VotesOf(r.rows, o, u) == {};
      VotersAfterInsert(r, o, u);
    } else {
      assert u !in Voters(vs.rows, o);
      VotersAfterInsert(vs, o, u);
      assert vs.next in VotesOf(r.rows, o, u);
      VotersAfterDelete(r, o, u);
    }
  }

  /** Voting keeps one vote per voter and option, on existing options. */
  lemma ToggleKeepsVotes(os: Table<VoteOption>, vs: Table<Vote>, o: nat, u: UserId)
    requires VoteTables(os, vs) && o in os.rows
    ensures VoteTables(os, Toggle(vs, o, u))
  {
    var r := Toggle(vs, o, u);
    forall i, j | SameVote(r.rows, i, j)
      ensures i == j
    {
      if i in vs.rows && j in vs.rows {
        assert SameVote(vs.rows, i, j);
      }
    }
  }

  class ReunionService {
    const users: UserStore
    const notifier: NotificationService
    var reunions: Table<Reunion>
    var members: Table<Member>
    var requests: Table<JoinRequest>
    var fees: Table<Fee>
    var feeGroups: Table<FeeGroup>
    var options: Table<VoteOption>
    var votes: Table<Vote>

    ghost predicate Valid()
      reads this, notifier
    {
      Tables() && notifier.Valid() && notifier.users == users
    }

    /** The invariants of the service's own tables. */
    ghost predicate Tables()
      reads this
    {
      ServiceTables(reunions, members, requests, fees, feeGroups, options, votes)
    }

    constructor(users: UserStore, notifier: NotificationService, options: Table<VoteOption>)
      requires notifier.Valid() && notifier.users == users && options.Valid()
      ensures Valid() && this.users == users && this.notifier == notifier
      ensures reunions.rows == map[] && members.rows == map[] && fees.rows == map[] && this.options == options
    {
      this.users := users;
      this.notifier := notifier;
      this.options := options;
      reunions := EmptyTable();
      members := EmptyTable();
      requests := EmptyTable();
      fees := EmptyTable();
      feeGroups := EmptyTable();
      votes := EmptyTable();
    }

    /** `memberRepository.findByReunionAndUser`. */
    method FindMember(rid: nat, u: UserId) returns (id: Option<nat>)
      requires MemberTable(members, reunions.rows.Keys)
      ensures id.None? <==> !IsMember(members.rows, rid, u)
      ensures id.Some? ==>
        && RowsOf(members.rows, rid, u) == {id.value}
        && RoleIn(members.rows, rid, u) == Some(members.rows[id.value].role)
    {
      if exists k :: k in members.rows && members.rows[k].reunion == rid && members.rows[k].user == u {
        var k :| k in members.rows && members.rows[k].reunion == rid && members.rows[k].user == u;
        OnlyRowOf(members.rows, k);
        RoleInRow(members.rows, k);
        return Some(k);
      }
      return None;
    }

    /** The caller's checks of most club methods: user, membership, role. */
    method Authorize(rid: nat, u: UserId, need: Need) returns (r: Outcome<nat>)
      requires MemberTable(members, reunions.rows.Keys)
      ensures r.Fail? <==> Clearance(users.users, members.rows, rid, u, need).Some?
      ensures r.Fail? ==> Clearance(users.users, members.rows, rid, u, need) == Some(r.error)
      ensures r.Ok? ==> RowsOf(members.rows, rid, u) == {r.value} && Permits(need, members.rows[r.value].role)
    {
      if u !in users.users {
        return Fail(UserNotFound);
      }
      var id := FindMember(rid, u);
      if id.None? {
        return Fail(NotMember);
      }
      if !Permits(need, members.rows[id.value].role) {
        return Fail(Forbidden);
      }
      return Ok(id.value);
    }

    /** `createAndSend` for one recipient; the service's own tables are untouched. */
    method Notify(recipient: UserId, n: Notice, now: Time)
      requires Valid()
      modifies notifier
      ensures Valid()
      ensures notifier.table == Created(old(notifier.table), users.users, recipient, n, now)
    {
      notifier.CreateAndSend(recipient, n, now);
    }

    /** `createAndSend` for each listed recipient in turn. */
    method NotifyEach(recipients: seq<UserId>, n: Notice, now: Time)
      requires Valid()
      modifies notifier
      ensures Valid()
      ensures notifier.table == CreatedForEach(old(notifier.table), users.users, recipients, n, now)
    {
      notifier.CreateAndSendEach(recipients, n, now);
    }

    /**
     * `createReunion`: the creator becomes the LEADER and every other listed
     * user who exists becomes a MEMBER and is notified; the club gets an
     * unused invite code. A request field too long for its column, or a
     * user listed twice (which breaks the unique key), rolls the whole
     * creation back.
     */
    method CreateReunion(creator: UserId, req: ReunionRequest, memberIds: seq<UserId>,
                         attempts: seq<seq<nat>>, now: Time)
      returns (r: Outcome<nat>)
      requires Valid()
      requires forall k | 0 <= k < |attempts| :: IsAttempt(attempts[k])
      requires exists k | 0 <= k < |attempts| :: CodeOf(attempts[k]) !in Codes(reunions.rows)
      modifies this, notifier
      ensures Valid()
      ensures creator !in users.users ==> r == Fail(UserNotFound)
      ensures r.Ok? <==>
        && creator in users.users && RequestFits(req)
        && InviteesDistinct(memberIds, creator, users.users)
      ensures creator in users.users && !RequestFits(req) ==> r == Fail(ConstraintViolation)
      ensures r.Fail? ==> reunions == old(reunions) && members == old(members) && notifier.table == old(notifier.table)
      ensures requests == old(requests) && fees == old(fees) && feeGroups == old(feeGroups)
      ensures options == old(options) && votes == old(votes)
      ensures r.Ok? ==>
        var rid := r.value;
        var invited := Eligible(memberIds, creator, users.users);
        && rid == old(reunions.next)
        && (exists k | 0 <= k < |attempts| ::
              && reunions == old(reunions).Insert(ClubFor(req, CodeOf(attempts[k]), creator))
              && CodeOf(attempts[k]) !in Codes(old(reunions.rows))
              && forall j | 0 <= j < k :: CodeOf(attempts[j]) in Codes(old(reunions.rows)))
        && members == Enrol(Enrol(old(members), rid, [creator], LEADER), rid, invited, MEMBER)
        && (forall u :: IsMember(members.rows, rid, u) <==> u == creator || u in invited)
        && RoleIn(members.rows, rid, creator) == Some(LEADER)
        && TreasurersOf(members.rows, rid) == {}
        && notifier.table == CreatedForEach(old(notifier.table), users.users, invited,
             Notice(creator, users.users[creator].name, "REUNION_INVITE", "[" + req.name + "] 동창회에 초대되었습니다", Some(rid)), now)
    {
      if creator !in users.users {
        return Fail(UserNotFound);
      }
      var code := GenerateInviteCode(attempts, Codes(reunions.rows));
      if !RequestFits(req) {
        return Fail(ConstraintViolation);
      }
      var invited := CollectInvitees(memberIds, creator, users.users);
      if invited.None? {
        return Fail(ConstraintViolation);
      }
      // The notices and the rows are saved in one transaction; the notices,
      // which carry the club's id to be, are written first.
      NotifyEach(invited.value,
        Notice(creator, users.users[creator].name, "REUNION_INVITE", "[" + req.name + "] 동창회에 초대되었습니다", Some(reunions.next)), now);
      var rid := Open(ClubFor(req, code.value, creator), invited.value);
      r := Ok(rid);
    }

    /** The rows `createReunion` saves: the club, its LEADER and its MEMBERs. */
    method Open(club: Reunion, invited: seq<UserId>) returns (rid: nat)
      requires Valid()
      requires IsInviteCode(club.inviteCode) && club.inviteCode !in Codes(reunions.rows)
      requires Distinct(invited) && club.createdBy !in invited
      modifies this
      ensures Valid()
      ensures rid == old(reunions.next)
      ensures reunions == old(reunions).Insert(club)
      ensures members == Enrol(Enrol(old(members), rid, [club.createdBy], LEADER), rid, invited, MEMBER)
      ensures forall u :: IsMember(members.rows, rid, u) <==> u == club.createdBy || u in invited
      ensures RoleIn(members.rows, rid, club.createdBy) == Some(LEADER)
      ensures TreasurersOf(members.rows, rid) == {}
      ensures requests == old(requests) && fees == old(fees) && feeGroups == old(feeGroups)
      ensures options == old(options) && votes == old(votes)
    {
      rid := reunions.next;
      FoundingKeepsTables(reunions, members, requests, fees, feeGroups, options, votes, club, invited);
      Founding(members, reunions.rows.Keys, rid, club.createdBy, invited);
      members := Enrol(Enrol(members, rid, [club.createdBy], LEADER), rid, invited, MEMBER);
      reunions := reunions.Insert(club);
    }

    /**
     * `inviteMembers`: a LEADER or ADMIN of an existing club enrols each
     * listed user who exists and is not yet a member, as a MEMBER, and
     * notifies them; everyone else in the list is skipped.
     */
    method InviteMembers(rid: nat, inviter: UserId, memberIds: seq<UserId>, now: Time) returns (r: Outcome<()>)
      requires Valid()
      modifies this, notifier
      ensures Valid()
      ensures rid !in reunions.rows ==> r == Fail(ReunionNotFound)
      ensures rid in reunions.rows && r.Fail? ==>
        Clearance(users.users, old(members.rows), rid, inviter, LEAD) == Some(r.error)
      ensures r.Ok? <==> rid in reunions.rows && Clearance(users.users, old(members.rows), rid, inviter, LEAD).None?
      ensures reunions == old(reunions) && requests == old(requests) && fees == old(fees)
      ensures feeGroups == old(feeGroups) && options == old(options) && votes == old(votes)
      ensures r.Fail? ==> members == old(members) && notifier.table == old(notifier.table)
      ensures r.Ok? ==>
        var added := Newcomers(memberIds, rid, old(members.rows), users.users);
        && members == Enrol(old(members), rid, added, MEMBER)
        && (forall c, u :: IsMember(members.rows, c, u) <==> IsMember(old(members.rows), c, u) || (c == rid && u in added))
        && notifier.table == CreatedForEach(old(notifier.table), users.users, added,
             Notice(inviter, users.users[inviter].name, "REUNION_INVITE",
                    "[" + reunions.rows[rid].name + "] 동창회에 초대되었습니다", Some(rid)), now)
    {
      if rid !in reunions.rows {
        return Fail(ReunionNotFound);
      }
      var caller := Authorize(rid, inviter, LEAD);
      if caller.Fail? {
        return Fail(caller.error);
      }
      var added := CollectNewcomers(memberIds, rid);
      AddMembers(rid, added);
      NotifyEach(added,
        Notice(inviter, users.users[inviter].name, "REUNION_INVITE", "[" + reunions.rows[rid].name + "] 동창회에 초대되었습니다", Some(rid)), now);
      r := Ok(());
    }

    /** The membership check of `inviteMembers`' loop, over the rows saved so far. */
    method CollectNewcomers(ids: seq<UserId>, rid: nat) returns (added: seq<UserId>)
      requires members.Valid()
      ensures added == Newcomers(ids, rid, members.rows, users.users)
    {
      added := [];
      for i := 0 to |ids|
        invariant added == Newcomers(ids[..i], rid, members.rows, users.users)
      {
        var m := ids[i];
        assert ids[..i + 1][..i] == ids[..i];
        EnrolMembership(members, rid, added, MEMBER, rid, m);
        if m !in users.users || IsMember(Enrol(members, rid, added, MEMBER).rows, rid, m) {
          continue;
        }
        added := added + [m];
      }
      assert ids[..|ids|] == ids;
    }

    /** Saves a MEMBER row for each listed newcomer of an existing club. */
    method AddMembers(rid: nat, added: seq<UserId>)
      requires Valid() && rid in reunions.rows && Distinct(added)
      requires forall u | u in added :: !IsMember(members.rows, rid, u)
      modifies this
      ensures Valid()
      ensures members == Enrol(old(members), rid, added, MEMBER)
      ensures forall c, u :: IsMember(members.rows, c, u) <==> IsMember(old(members.rows), c, u) || (c == rid && u in added)
      ensures reunions == old(reunions) && requests == old(requests) && fees == old(fees)
      ensures feeGroups == old(feeGroups) && options == old(options) && votes == old(votes)
    {
      Enrolled(members, reunions.rows.Keys, rid, added, MEMBER);
      members := Enrol(members, rid, added, MEMBER);
    }

    /** Deletes one membership row. */
    method Drop(id: nat)
      requires Valid() && id in members.rows
      modifies this
      ensures Valid()
      ensures members == old(members).Delete({id})
      ensures forall c, u :: IsMember(members.rows, c, u) <==>
        IsMember(old(members.rows), c, u) && !(c == old(members.rows)[id].reunion && u == old(members.rows)[id].user)
      ensures reunions == old(reunions) && requests == old(requests) && fees == old(fees)
      ensures feeGroups == old(feeGroups) && options == old(options) && votes == old(votes)
    {
      Unenrolled(members, reunions.rows.Keys, id);
      members := members.Delete({id});
    }

    /**
     * `leaveReunion`: the member's row is deleted; when a LEADER or ADMIN
     * leaves and others remain, the successor (the treasurer, else the
     * earliest remaining member) becomes LEADER. Returns the promoted row.
     */
    method LeaveReunion(rid: nat, u: UserId) returns (r: Outcome<Option<nat>>)
      requires Valid()
      modifies this
      ensures Valid()
      ensures rid !in reunions.rows ==> r == Fail(ReunionNotFound)
      ensures rid in reunions.rows && r.Fail? ==> Clearance(users.users, old(members.rows), rid, u, ANY_MEMBER) == Some(r.error)
      ensures r.Ok? <==> rid in reunions.rows && Clearance(users.users, old(members.rows), rid, u, ANY_MEMBER).None?
      ensures reunions == old(reunions) && requests == old(requests) && fees == old(fees)
      ensures feeGroups == old(feeGroups) && options == old(options) && votes == old(votes)
      ensures r.Fail? ==> members == old(members)
      ensures r.Ok? ==>
        var left := old(members).Delete(RowsOf(old(members.rows), rid, u));
        && (r.value.None? <==> !IsLeaderOrAdmin(RoleIn(old(members.rows), rid, u).value) || MembersOf(left.rows, rid) == {})
        && (r.value.None? ==> members == left)
        && (r.value.Some? ==>
              && IsSuccessor(left.rows, rid, r.value.value)
              && members == left.Update(r.value.value, left.rows[r.value.value].(role := LEADER))
              && HasLeader(members.rows, rid))
        && (forall c, v :: IsMember(members.rows, c, v) <==> IsMember(old(members.rows), c, v) && !(c == rid && v == u))
    {
      if rid !in reunions.rows {
        return Fail(ReunionNotFound);
      }
      var caller := Authorize(rid, u, ANY_MEMBER);
      if caller.Fail? {
        return Fail(caller.error);
      }
      var id := caller.value;
      var role := members.rows[id].role;
      Drop(id);
      if !IsLeaderOrAdmin(role) {
        return Ok(None);
      }
      var remaining := SelectOldest(members, (m: Member) => m.reunion == rid);
      if remaining == [] {
        assert MembersOf(members.rows, rid) == {} by {
          forall q | q in MembersOf(members.rows, rid)
            ensures q in remaining
          {
          }
        }
        return Ok(None);
      }
      var p := FirstTreasurer(remaining, rid);
      Promote(p, rid);
      r := Ok(Some(p));
    }

    /**
     * `stream().filter(TREASURER).findFirst().orElse(remaining.get(0))` over
     * the club's remaining members in id order.
     */
    method FirstTreasurer(remaining: seq<nat>, rid: nat) returns (p: nat)
      requires MemberTable(members, reunions.rows.Keys)
      requires remaining != [] && OldestFirstOrder(remaining)
      requires forall id :: id in remaining <==> id in members.rows && members.rows[id].reunion == rid
      ensures IsSuccessor(members.rows, rid, p)
    {
      p := remaining[0];
      var i := 0;
      while i < |remaining|
        invariant 0 <= i <= |remaining|
        invariant forall k | 0 <= k < i :: members.rows[remaining[k]].role != TREASURER
      {
        if members.rows[remaining[i]].role == TREASURER {
          return remaining[i];
        }
        i := i + 1;
      }
      assert TreasurersOf(members.rows, rid) == {} by {
        forall t | t in TreasurersOf(members.rows, rid)
          ensures false
        {
        }
      }
      forall q | q in MembersOf(members.rows, rid)
        ensures p <= q
      {
        var k :| 0 <= k < |remaining| && remaining[k] == q;
        if k > 0 {
          assert remaining[0] < remaining[k];
        }
      }
    }

    /** The successor's row is saved with the LEADER role. */
    method Promote(p: nat, rid: nat)
      requires Valid() && IsSuccessor(members.rows, rid, p)
      modifies this
      ensures Valid()
      ensures members == old(members).Update(p, old(members.rows)[p].(role := LEADER))
      ensures HasLeader(members.rows, rid)
      ensures forall c, v :: IsMember(members.rows, c, v) == IsMember(old(members.rows), c, v)
      ensures reunions == old(reunions) && requests == old(requests) && fees == old(fees)
      ensures feeGroups == old(feeGroups) && options == old(options) && votes == old(votes)
    {
      SuccessionKeepsClubLed(members.rows, rid, p);
      Relabelled(members, reunions.rows.Keys, p, LEADER);
      members := members.Update(p, members.rows[p].(role := LEADER));
    }

    /**
     * `removeMember`: a LEADER or ADMIN removes another member's row. The
     * admin, then the target, must be users; the admin must be a LEADER or
     * ADMIN of the club, and the target a member. Nobody is promoted, even
     * when the removed member led the club.
     */
    method RemoveMember(rid: nat, admin: UserId, target: UserId) returns (r: Outcome<()>)
      requires Valid()
      modifies this
      ensures Valid()
      ensures rid !in reunions.rows ==> r == Fail(ReunionNotFound)
      ensures rid in reunions.rows && admin !in users.users ==> r == Fail(UserNotFound)
      ensures rid in reunions.rows && admin in users.users && target !in users.users ==> r == Fail(UserNotFound)
      ensures rid in reunions.rows && admin in users.users && target in users.users ==>
        && (!IsMember(old(members.rows), rid, admin) ==> r == Fail(NotMember))
        && (IsMember(old(members.rows), rid, admin) && !IsLeaderOrAdmin(RoleIn(old(members.rows), rid, admin).value) ==>
              r == Fail(Forbidden))
        && (IsMember(old(members.rows), rid, admin) && IsLeaderOrAdmin(RoleIn(old(members.rows), rid, admin).value) ==>
              (r.Ok? <==> IsMember(old(members.rows), rid, target)) && (r.Fail? ==> r.error == NotMember))
      ensures reunions == old(reunions) && requests == old(requests) && fees == old(fees)
      ensures feeGroups == old(feeGroups) && options == old(options) && votes == old(votes)
      ensures r.Fail? ==> members == old(members)
      ensures r.Ok? ==>
        && RowsOf(old(members.rows), rid, target) != {}
        && members == old(members).Delete(RowsOf(old(members.rows), rid, target))
        && (forall c, v :: IsMember(members.rows, c, v) <==> IsMember(old(members.rows), c, v) && !(c == rid && v == target))
    {
      if rid !in reunions.rows {
        return Fail(ReunionNotFound);
      }
      if admin !in users.users || target !in users.users {
        return Fail(UserNotFound);
      }
      var caller := Authorize(rid, admin, LEAD);
      if caller.Fail? {
        return Fail(caller.error);
      }
      var id := FindMember(rid, target);
      if id.None? {
        return Fail(NotMember);
      }
      Drop(id.value);
      r := Ok(());
    }

    /**
     * `joinByCode`: a user asks to join the club whose code matches the
     * upper-cased input. Members and users with a PENDING request are
     * refused; a user whose earlier request was already processed breaks
     * the request table's unique key. The request is stored PENDING and
     * every LEADER and ADMIN of the club, in membership order, is notified.
     */
    method JoinByCode(u: UserId, typed: string, now: Time) returns (r: Outcome<nat>, notified: seq<UserId>)
      requires Valid()
      modifies this, notifier
      ensures Valid()
      ensures u !in users.users ==> r == Fail(UserNotFound)
      ensures u in users.users && WithCode(reunions.rows, ToUpper(typed)) == {} ==> r == Fail(InvalidInviteCode)
      ensures forall rid | rid in WithCode(reunions.rows, ToUpper(typed)) && u in users.users ::
        && (IsMember(members.rows, rid, u) ==> r == Fail(AlreadyMember))
        && (!IsMember(members.rows, rid, u) && HasPendingRequest(old(requests.rows), rid, u) ==> r == Fail(AlreadyRequested))
        && ((!IsMember(members.rows, rid, u) && !HasPendingRequest(old(requests.rows), rid, u)
             && RequestsOf(old(requests.rows), rid, u) != {}) ==> r == Fail(ConstraintViolation))
        && (!IsMember(members.rows, rid, u) && RequestsOf(old(requests.rows), rid, u) == {} ==> r == Ok(rid))
      ensures reunions == old(reunions) && members == old(members) && fees == old(fees)
      ensures feeGroups == old(feeGroups) && options == old(options) && votes == old(votes)
      ensures r.Fail? ==> requests == old(requests) && notifier.table == old(notifier.table)
      ensures r.Ok? ==>
        var rid := r.value;
        var name := users.users[u].name;
        && requests == old(requests).Insert(JoinRequest(rid, u, PENDING, None))
        && Distinct(notified)
        && (forall v :: v in notified <==> exists id | id in members.rows ::
              members.rows[id].reunion == rid && members.rows[id].user == v && IsLeaderOrAdmin(members.rows[id].role))
        && notifier.table == CreatedForEach(old(notifier.table), users.users, notified,
             Notice(u, name, "REUNION_JOIN_REQUEST", "[" + reunions.rows[rid].name + "] " + name + "님이 가입을 요청했습니다",
                    Some(rid)), now)
    {
      notified := [];
      if u !in users.users {
        return Fail(UserNotFound), [];
      }
      var found := WithCode(reunions.rows, ToUpper(typed));
      if found == {} {
        return Fail(InvalidInviteCode), [];
      }
      var rid :| rid in found;
      OneClubPerCode(reunions.rows, ToUpper(typed));
      assert found == {rid};
      if IsMember(members.rows, rid, u) {
        return Fail(AlreadyMember), [];
      }
      if HasPendingRequest(requests.rows, rid, u) {
        return Fail(AlreadyRequested), [];
      }
      if RequestsOf(requests.rows, rid, u) != {} {
        return Fail(ConstraintViolation), [];
      }
      Request(rid, u);
      notified := LeadersOf(rid);
      var name := users.users[u].name;
      NotifyEach(notified,
        Notice(u, name, "REUNION_JOIN_REQUEST", "[" + reunions.rows[rid].name + "] " + name + "님이 가입을 요청했습니다", Some(rid)),
        now);
      r := Ok(rid);
    }

    /** Saves a PENDING request of a user who has none for the club. */
    method Request(rid: nat, u: UserId)
      requires Valid() && rid in reunions.rows && RequestsOf(requests.rows, rid, u) == {}
      modifies this
      ensures Valid()
      ensures requests == old(requests).Insert(JoinRequest(rid, u, PENDING, None))
      ensures reunions == old(reunions) && members == old(members) && fees == old(fees)
      ensures feeGroups == old(feeGroups) && options == old(options) && votes == old(votes)
    {
      RequestAdded(requests, reunions.rows.Keys, JoinRequest(rid, u, PENDING, None));
      requests := requests.Insert(JoinRequest(rid, u, PENDING, None));
    }

    /**
     * The users `joinByCode` notifies: those holding a LEADER or ADMIN row
     * of the club, each once, in membership order.
     */
    method LeadersOf(rid: nat) returns (notified: seq<UserId>)
      requires MemberTable(members, reunions.rows.Keys)
      ensures Distinct(notified)
      ensures forall v :: v in notified <==> exists id | id in members.rows ::
        members.rows[id].reunion == rid && members.rows[id].user == v && IsLeaderOrAdmin(members.rows[id].role)
    {
      var leads := SelectOldest(members, (m: Member) => m.reunion == rid && IsLeaderOrAdmin(m.role));
      notified := UsersOf(members.rows, leads);
      forall i, j | 0 <= i < j < |notified|
        ensures notified[i] != notified[j]
      {
        assert leads[i] < leads[j];
        if notified[i] == notified[j] {
          assert SameMember(members.rows, leads[i], leads[j]);
        }
      }
      forall v
        ensures v in notified <==> exists id | id in members.rows ::
          members.rows[id].reunion == rid && members.rows[id].user == v && IsLeaderOrAdmin(members.rows[id].role)
      {
        if v in notified {
          var i :| 0 <= i < |notified| && notified[i] == v;
          assert leads[i] in members.rows;
        }
        if exists id | id in members.rows ::
             members.rows[id].reunion == rid && members.rows[id].user == v && IsLeaderOrAdmin(members.rows[id].role) {
          var id :| id in members.rows &&
            members.rows[id].reunion == rid && members.rows[id].user == v && IsLeaderOrAdmin(members.rows[id].role);
          var i :| 0 <= i < |leads| && leads[i] == id;
          assert notified[i] == v;
        }
      }
    }

    /**
     * `approveJoinRequest`: a LEADER or ADMIN of the request's club marks
     * it APPROVED, enrols its user as a MEMBER and notifies them. The
     * request's status is not checked; a user who is already a member
     * breaks the membership table's unique key.
     */
    method ApproveJoinRequest(id: nat, admin: UserId, now: Time) returns (r: Outcome<()>)
      requires Valid()
      modifies this, notifier
      ensures Valid()
      ensures id !in old(requests.rows) ==> r == Fail(JoinRequestNotFound)
      ensures id in old(requests.rows) ==>
        var q := old(requests.rows)[id];
        var clearance := Clearance(users.users, old(members.rows), q.reunion, admin, LEAD);
        && (clearance.Some? ==> r == Fail(clearance.value))
        && (clearance.None? && IsMember(old(members.rows), q.reunion, q.user) ==> r == Fail(ConstraintViolation))
        && (r.Ok? <==> clearance.None? && !IsMember(old(members.rows), q.reunion, q.user))
      ensures reunions == old(reunions) && fees == old(fees)
      ensures feeGroups == old(feeGroups) && options == old(options) && votes == old(votes)
      ensures r.Fail? ==> requests == old(requests) && members == old(members) && notifier.table == old(notifier.table)
      ensures r.Ok? ==>
        var q := old(requests.rows)[id];
        && requests == old(requests).Update(id, q.(status := APPROVED, processedAt := Some(now)))
        && members == Enrol(old(members), q.reunion, [q.user], MEMBER)
        && (forall c, v :: IsMember(members.rows, c, v) <==> IsMember(old(members.rows), c, v) || (c == q.reunion && v == q.user))
        && notifier.table == Created(old(notifier.table), users.users, q.user,
             Notice(admin, users.users[admin].name, "REUNION_JOIN_APPROVED",
                    "[" + reunions.rows[q.reunion].name + "] 가입이 승인되었습니다", Some(q.reunion)), now)
    {
      if id !in requests.rows {
        return Fail(JoinRequestNotFound);
      }
      var q := requests.rows[id];
      var caller := Authorize(q.reunion, admin, LEAD);
      if caller.Fail? {
        return Fail(caller.error);
      }
      if IsMember(members.rows, q.reunion, q.user) {
        return Fail(ConstraintViolation);
      }
      Stamp(id, APPROVED, now);
      AddMembers(q.reunion, [q.user]);
      Notify(q.user,
        Notice(admin, users.users[admin].name, "REUNION_JOIN_APPROVED", "[" + reunions.rows[q.reunion].name + "] 가입이 승인되었습니다",
               Some(q.reunion)), now);
      r := Ok(());
    }

    /**
     * `rejectJoinRequest`: a LEADER or ADMIN of the request's club marks it
     * REJECTED and notifies its user; the status is not checked first.
     */
    method RejectJoinRequest(id: nat, admin: UserId, now: Time) returns (r: Outcome<()>)
      requires Valid()
      modifies this, notifier
      ensures Valid()
      ensures id !in old(requests.rows) ==> r == Fail(JoinRequestNotFound)
      ensures id in old(requests.rows) ==>
        var clearance := Clearance(users.users, members.rows, old(requests.rows)[id].reunion, admin, LEAD);
        && (clearance.Some? ==> r == Fail(clearance.value))
        && (r.Ok? <==> clearance.None?)
      ensures reunions == old(reunions) && members == old(members) && fees == old(fees)
      ensures feeGroups == old(feeGroups) && options == old(options) && votes == old(votes)
      ensures r.Fail? ==> requests == old(requests) && notifier.table == old(notifier.table)
      ensures r.Ok? ==>
        var q := old(requests.rows)[id];
        && requests == old(requests).Update(id, q.(status := REJECTED, processedAt := Some(now)))
        && notifier.table == Created(old(notifier.table), users.users, q.user,
             Notice(admin, users.users[admin].name, "REUNION_JOIN_REJECTED",
                    "[" + reunions.rows[q.reunion].name + "] 가입이 거절되었습니다", Some(q.reunion)), now)
    {
      if id !in requests.rows {
        return Fail(JoinRequestNotFound);
      }
      var q := requests.rows[id];
      var caller := Authorize(q.reunion, admin, LEAD);
      if caller.Fail? {
        return Fail(caller.error);
      }
      Stamp(id, REJECTED, now);
      Notify(q.user,
        Notice(admin, users.users[admin].name, "REUNION_JOIN_REJECTED", "[" + reunions.rows[q.reunion].name + "] 가입이 거절되었습니다",
               Some(q.reunion)), now);
      r := Ok(());
    }

    /** Saves a request's decision. */
    method Stamp(id: nat, status: JoinStatus, now: Time)
      requires Valid() && id in requests.rows
      modifies this
      ensures Valid()
      ensures requests == old(requests).Update(id, old(requests.rows)[id].(status := status, processedAt := Some(now)))
      ensures reunions == old(reunions) && members == old(members) && fees == old(fees)
      ensures feeGroups == old(feeGroups) && options == old(options) && votes == old(votes)
    {
      RequestProcessed(requests, reunions.rows.Keys, id, status, now);
      requests := requests.Update(id, requests.rows[id].(status := status, processedAt := Some(now)));
    }

    /**
     * `regenerateInviteCode`: a LEADER or ADMIN replaces the club's code by
     * a fresh unused one; the old code stops working and the new one finds
     * the club.
     */
    method RegenerateInviteCode(rid: nat, admin: UserId, attempts: seq<seq<nat>>) returns (r: Outcome<string>)
      requires Valid()
      requires forall k | 0 <= k < |attempts| :: IsAttempt(attempts[k])
      requires exists k | 0 <= k < |attempts| :: CodeOf(attempts[k]) !in Codes(reunions.rows)
      modifies this
      ensures Valid()
      ensures rid !in old(reunions.rows) ==> r == Fail(ReunionNotFound)
      ensures rid in old(reunions.rows) ==>
        var clearance := Clearance(users.users, members.rows, rid, admin, LEAD);
        && (clearance.Some? ==> r == Fail(clearance.value))
        && (r.Ok? <==> clearance.None?)
      ensures members == old(members) && requests == old(requests) && fees == old(fees)
      ensures feeGroups == old(feeGroups) && options == old(options) && votes == old(votes)
      ensures r.Fail? ==> reunions == old(reunions)
      ensures r.Ok? ==>
        && IsInviteCode(r.value)
        && r.value !in Codes(old(reunions.rows))
        && r.value != old(reunions.rows)[rid].inviteCode
        && reunions == old(reunions).Update(rid, old(reunions.rows)[rid].(inviteCode := r.value))
        && WithCode(reunions.rows, r.value) == {rid}
        && WithCode(reunions.rows, old(reunions.rows)[rid].inviteCode) == {}
    {
      if rid !in reunions.rows {
        return Fail(ReunionNotFound);
      }
      var caller := Authorize(rid, admin, LEAD);
      if caller.Fail? {
        return Fail(caller.error);
      }
      var code := GenerateInviteCode(attempts, Codes(reunions.rows));
      Recode(rid, code.value);
      r := Ok(code.value);
    }

    /** Saves a club's new invite code. */
    method Recode(rid: nat, code: string)
      requires Valid() && rid in reunions.rows && IsInviteCode(code) && code !in Codes(reunions.rows)
      modifies this
      ensures Valid()
      ensures code != old(reunions.rows)[rid].inviteCode
      ensures reunions == old(reunions).Update(rid, old(reunions.rows)[rid].(inviteCode := code))
      ensures WithCode(reunions.rows, code) == {rid}
      ensures WithCode(reunions.rows, old(reunions.rows)[rid].inviteCode) == {}
      ensures members == old(members) && requests == old(requests) && fees == old(fees)
      ensures feeGroups == old(feeGroups) && options == old(options) && votes == old(votes)
    {
      assert reunions.rows[rid].inviteCode in Codes(reunions.rows);
      CodeReplaced(reunions, rid, code);
      reunions := reunions.Update(rid, reunions.rows[rid].(inviteCode := code));
    }

    /**
     * `assignTreasurer`: a LEADER or ADMIN makes a member who does not lead
     * the club its treasurer; the previous treasurer goes back to MEMBER.
     * The target is notified.
     */
    method AssignTreasurer(rid: nat, leader: UserId, target: UserId, now: Time) returns (r: Outcome<()>)
      requires Valid()
      modifies this, notifier
      ensures Valid()
      ensures rid !in reunions.rows ==> r == Fail(ReunionNotFound)
      ensures rid in reunions.rows ==>
        var clearance := Clearance(users.users, old(members.rows), rid, leader, LEAD);
        && (clearance.Some? ==> r == Fail(clearance.value))
        && (clearance.None? && target !in users.users ==> r == Fail(UserNotFound))
        && (clearance.None? && target in users.users && !IsMember(old(members.rows), rid, target) ==> r == Fail(NotMember))
        && ((clearance.None? && target in users.users && IsMember(old(members.rows), rid, target)
             && IsLeaderOrAdmin(RoleIn(old(members.rows), rid, target).value)) ==> r == Fail(Invalid))
        && (r.Ok? <==> clearance.None? && target in users.users && IsMember(old(members.rows), rid, target)
                       && !IsLeaderOrAdmin(RoleIn(old(members.rows), rid, target).value))
      ensures reunions == old(reunions) && requests == old(requests) && fees == old(fees)
      ensures feeGroups == old(feeGroups) && options == old(options) && votes == old(votes)
      ensures r.Fail? ==> members == old(members) && notifier.table == old(notifier.table)
      ensures r.Ok? ==>
        && members.rows.Keys == old(members.rows.Keys) && members.next == old(members.next)
        && (forall id | id in members.rows ::
              members.rows[id] ==
                if id in RowsOf(old(members.rows), rid, target) then old(members.rows)[id].(role := TREASURER)
                else if id in TreasurersOf(old(members.rows), rid) then old(members.rows)[id].(role := MEMBER)
                else old(members.rows)[id])
        && TreasurersOf(members.rows, rid) == RowsOf(members.rows, rid, target)
        && RoleIn(members.rows, rid, target) == Some(TREASURER)
        && notifier.table == Created(old(notifier.table), users.users, target,
             Notice(leader, users.users[leader].name, "REUNION_TREASURER_ASSIGNED",
                    "[" + reunions.rows[rid].name + "] 총무로 지정되었습니다", Some(rid)), now)
    {
      if rid !in reunions.rows {
        return Fail(ReunionNotFound);
      }
      var caller := Authorize(rid, leader, LEAD);
      if caller.Fail? {
        return Fail(caller.error);
      }
      if target !in users.users {
        return Fail(UserNotFound);
      }
      var tid := FindMember(rid, target);
      if tid.None? {
        return Fail(NotMember);
      }
      if IsLeaderOrAdmin(members.rows[tid.value].role) {
        return Fail(Invalid);
      }
      Appoint(rid, tid.value);
      Notify(target,
        Notice(leader, users.users[leader].name, "REUNION_TREASURER_ASSIGNED", "[" + reunions.rows[rid].name + "] 총무로 지정되었습니다",
               Some(rid)), now);
      r := Ok(());
    }

    /** The club's treasurer, if any, goes back to MEMBER and the given member row becomes TREASURER. */
    method Appoint(rid: nat, tid: nat)
      requires Valid() && tid in members.rows && members.rows[tid].reunion == rid
      modifies this
      ensures Valid()
      ensures members.rows.Keys == old(members.rows.Keys) && members.next == old(members.next)
      ensures forall id | id in members.rows ::
        members.rows[id] ==
          if id == tid then old(members.rows)[id].(role := TREASURER)
          else if id in TreasurersOf(old(members.rows), rid) then old(members.rows)[id].(role := MEMBER)
          else old(members.rows)[id]
      ensures TreasurersOf(members.rows, rid) == RowsOf(members.rows, rid, members.rows[tid].user) == {tid}
      ensures RoleIn(members.rows, rid, members.rows[tid].user) == Some(TREASURER)
      ensures reunions == old(reunions) && requests == old(requests) && fees == old(fees)
      ensures feeGroups == old(feeGroups) && options == old(options) && votes == old(votes)
    {
      Demote(rid);
      Relabel(tid, TREASURER);
      RoleInRow(members.rows, tid);
      OnlyRowOf(members.rows, tid);
      OnlyTreasurer(members.rows, tid);
    }

    /** `removeTreasurer`: a LEADER or ADMIN sends the club's treasurer, if any, back to MEMBER. */
    method RemoveTreasurer(rid: nat, leader: UserId) returns (r: Outcome<()>)
      requires Valid()
      modifies this
      ensures Valid()
      ensures rid !in reunions.rows ==> r == Fail(ReunionNotFound)
      ensures rid in reunions.rows ==>
        var clearance := Clearance(users.users, old(members.rows), rid, leader, LEAD);
        && (clearance.Some? ==> r == Fail(clearance.value))
        && (r.Ok? <==> clearance.None?)
      ensures reunions == old(reunions) && requests == old(requests) && fees == old(fees)
      ensures feeGroups == old(feeGroups) && options == old(options) && votes == old(votes)
      ensures r.Fail? ==> members == old(members)
      ensures r.Ok? ==>
        && members.rows.Keys == old(members.rows.Keys) && members.next == old(members.next)
        && (forall id | id in members.rows ::
              members.rows[id] ==
                if id in TreasurersOf(old(members.rows), rid) then old(members.rows)[id].(role := MEMBER)
                else old(members.rows)[id])
        && TreasurersOf(members.rows, rid) == {}
    {
      if rid !in reunions.rows {
        return Fail(ReunionNotFound);
      }
      var caller := Authorize(rid, leader, LEAD);
      if caller.Fail? {
        return Fail(caller.error);
      }
      Demote(rid);
      r := Ok(());
    }

    /** `findByReunionAndRole(reunion, TREASURER).ifPresent(setRole(MEMBER))`. */
    method Demote(rid: nat)
      requires Valid()
      modifies this
      ensures Valid()
      ensures members.rows.Keys == old(members.rows.Keys) && members.next == old(members.next)
      ensures forall id | id in members.rows ::
        members.rows[id] ==
          if id in TreasurersOf(old(members.rows), rid) then old(members.rows)[id].(role := MEMBER)
          else old(members.rows)[id]
      ensures TreasurersOf(members.rows, rid) == {}
      ensures forall c, v :: IsMember(members.rows, c, v) == IsMember(old(members.rows), c, v)
      ensures reunions == old(reunions) && requests == old(requests) && fees == old(fees)
      ensures feeGroups == old(feeGroups) && options == old(options) && votes == old(votes)
    {
      var ts := TreasurersOf(members.rows, rid);
      if ts != {} {
        var t :| t in ts;
        OnlyTreasurer(members.rows, t);
        assert ts == {t};
        Relabel(t, MEMBER);
      }
    }

    /** Saves a member's new role; a new TREASURER must be the club's only one. */
    method Relabel(id: nat, role: MemberRole)
      requires Valid() && id in members.rows
      requires role == TREASURER ==> TreasurersOf(members.rows, members.rows[id].reunion) <= {id}
      modifies this
      ensures Valid()
      ensures members == old(members).Update(id, old(members.rows)[id].(role := role))
      ensures forall c, v :: IsMember(members.rows, c, v) == IsMember(old(members.rows), c, v)
      ensures reunions == old(reunions) && requests == old(requests) && fees == old(fees)
      ensures feeGroups == old(feeGroups) && options == old(options) && votes == old(votes)
    {
      Relabelled(members, reunions.rows.Keys, id, role);
      members := members.Update(id, members.rows[id].(role := role));
    }

    /**
     * `getFeeSummary`: the club's fees, newest first, summed as `int`s; the
     * counts are those of the fees stored in each status.
     */
    method GetFeeSummary(rid: nat) returns (r: Outcome<FeeSummary>)
      requires fees.Valid()
      ensures r.Fail? <==> rid !in reunions.rows
      ensures r.Fail? ==> r.error == ReunionNotFound
      ensures r.Ok? ==>
        var club := ClubFees(fees.rows, rid);
        && r.value == Summary(FeeList(fees.rows, Descending(club)))
        && r.value.paidCount == |InStatus(fees.rows, club, PAID)|
        && r.value.unpaidCount == |InStatus(fees.rows, club, UNPAID)|
        && r.value.partialCount == |InStatus(fees.rows, club, PARTIAL)|
    {
      if rid !in reunions.rows {
        return Fail(ReunionNotFound);
      }
      var ids := SelectNewest(fees, (f: Fee) => f.reunion == rid, None);
      var club := ClubFees(fees.rows, rid);
      OrderedListOf(ids, club);
      CountIsCardinality(fees.rows, ids, club, PAID);
      CountIsCardinality(fees.rows, ids, club, UNPAID);
      CountIsCardinality(fees.rows, ids, club, PARTIAL);
      r := Ok(Summary(FeeList(fees.rows, ids)));
    }

    /** `getFeeGroups`: the club's fee groups, newest first, each with its figures. */
    method GetFeeGroups(rid: nat) returns (r: Outcome<seq<GroupView>>)
      requires fees.Valid() && feeGroups.Valid()
      ensures r.Fail? <==> rid !in reunions.rows
      ensures r.Fail? ==> r.error == ReunionNotFound
      ensures r.Ok? ==>
        var gids := Descending(GroupsOf(feeGroups.rows, rid));
        && |r.value| == |gids|
        && forall i | 0 <= i < |gids| ::
             gids[i] in feeGroups.rows && r.value[i] == GroupView(gids[i], GroupFigures(fees.rows, feeGroups.rows, gids[i]))
    {
      if rid !in reunions.rows {
        return Fail(ReunionNotFound);
      }
      var gids := GroupIds(rid);
      var views := ViewsOf(fees, feeGroups.rows, gids);
      r := Ok(views);
    }

    /** `findByReunionIdOrderByCreatedAtDesc` on the fee groups. */
    method GroupIds(rid: nat) returns (gids: seq<nat>)
      requires feeGroups.Valid()
      ensures gids == Descending(GroupsOf(feeGroups.rows, rid))
      ensures forall i | 0 <= i < |gids| :: gids[i] in feeGroups.rows
    {
      gids := SelectNewest(feeGroups, (g: FeeGroup) => g.reunion == rid, None);
      OrderedListOf(gids, GroupsOf(feeGroups.rows, rid));
    }

    /** `findByReunionId` on the members: their users, in joining order. */
    method RosterOf(rid: nat) returns (us: seq<UserId>)
      requires members.Valid() && OnePerMember(members.rows)
      ensures us == Roster(members.rows, rid) && Distinct(us)
    {
      var ids := SelectOldest(members, (m: Member) => m.reunion == rid);
      OrderedListOf(ids, MembersOf(members.rows, rid));
      us := UsersOf(members.rows, ids);
      RosterMeaning(members.rows, rid);
    }

    /**
     * `updateFeePayment`: a LEADER, ADMIN or TREASURER of the fee's club
     * records the paid amount; the status follows from it. The fee's user,
     * unless it is the caller, is told the payment was confirmed, whatever
     * the amount.
     */
    method UpdateFeePayment(id: nat, admin: UserId, paid: int, now: Time) returns (r: Outcome<Fee>)
      requires Valid()
      modifies this, notifier
      ensures Valid()
      ensures id !in old(fees.rows) ==> r == Fail(FeeNotFound)
      ensures id in old(fees.rows) ==>
        var clearance := Clearance(users.users, members.rows, old(fees.rows)[id].reunion, admin, MANAGE_FEES);
        && (clearance.Some? ==> r == Fail(clearance.value))
        && (r.Ok? <==> clearance.None?)
      ensures reunions == old(reunions) && members == old(members) && requests == old(requests)
      ensures feeGroups == old(feeGroups) && options == old(options) && votes == old(votes)
      ensures r.Fail? ==> fees == old(fees) && notifier.table == old(notifier.table)
      ensures r.Ok? ==>
        var f := old(fees.rows)[id];
        && r.value == Recorded(f, paid, now)
        && fees == old(fees).Update(id, r.value)
        && (f.user == admin ==> notifier.table == old(notifier.table))
        && (f.user != admin ==> notifier.table == Created(old(notifier.table), users.users, f.user,
              Notice(admin, users.users[admin].name, "FEE_UPDATED",
                     "[" + reunions.rows[f.reunion].name + "] 회비 납부가 확인되었습니다", Some(id)), now))
    {
      if id !in fees.rows {
        return Fail(FeeNotFound);
      }
      var f := fees.rows[id];
      var caller := Authorize(f.reunion, admin, MANAGE_FEES);
      if caller.Fail? {
        return Fail(caller.error);
      }
      var g := Recorded(f, paid, now);
      Rewrite(id, g);
      if f.user != admin {
        Notify(f.user,
          Notice(admin, users.users[admin].name, "FEE_UPDATED", "[" + reunions.rows[f.reunion].name + "] 회비 납부가 확인되었습니다",
                 Some(id)), now);
      }
      r := Ok(g);
    }

    /**
     * `toggleFeePayment`: a LEADER, ADMIN or TREASURER flips the fee between
     * PAID and UNPAID; the fee's user, unless it is the caller, is told
     * whether the payment was confirmed or cancelled.
     */
    method ToggleFeePayment(id: nat, callerId: UserId, now: Time) returns (r: Outcome<Fee>)
      requires Valid()
      modifies this, notifier
      ensures Valid()
      ensures id !in old(fees.rows) ==> r == Fail(FeeNotFound)
      ensures id in old(fees.rows) ==>
        var clearance := Clearance(users.users, members.rows, old(fees.rows)[id].reunion, callerId, MANAGE_FEES);
        && (clearance.Some? ==> r == Fail(clearance.value))
        && (r.Ok? <==> clearance.None?)
      ensures reunions == old(reunions) && members == old(members) && requests == old(requests)
      ensures feeGroups == old(feeGroups) && options == old(options) && votes == old(votes)
      ensures r.Fail? ==> fees == old(fees) && notifier.table == old(notifier.table)
      ensures r.Ok? ==>
        var f := old(fees.rows)[id];
        && r.value == Toggled(f, now)
        && fees == old(fees).Update(id, r.value)
        && (f.user == callerId ==> notifier.table == old(notifier.table))
        && (f.user != callerId ==> notifier.table == Created(old(notifier.table), users.users, f.user,
              Notice(callerId, users.users[callerId].name, "FEE_UPDATED",
                     "[" + reunions.rows[f.reunion].name + "] " + ToggleMessage(r.value.status), Some(id)), now))
    {
      if id !in fees.rows {
        return Fail(FeeNotFound);
      }
      var f := fees.rows[id];
      var caller := Authorize(f.reunion, callerId, MANAGE_FEES);
      if caller.Fail? {
        return Fail(caller.error);
      }
      var g := Toggled(f, now);
      Rewrite(id, g);
      if f.user != callerId {
        Notify(f.user,
          Notice(callerId, users.users[callerId].name, "FEE_UPDATED",
                 "[" + reunions.rows[f.reunion].name + "] " + ToggleMessage(g.status), Some(id)), now);
      }
      r := Ok(g);
    }

    /** Saves a fee's new payment fields. */
    method Rewrite(id: nat, f: Fee)
      requires Valid() && id in fees.rows
      requires f.reunion == fees.rows[id].reunion && f.group == fees.rows[id].group
      requires f.user == fees.rows[id].user && f.amount == fees.rows[id].amount
      modifies this
      ensures Valid()
      ensures fees == old(fees).Update(id, f)
      ensures reunions == old(reunions) && members == old(members) && requests == old(requests)
      ensures feeGroups == old(feeGroups) && options == old(options) && votes == old(votes)
    {
      FeeRewritten(fees, feeGroups, reunions.rows.Keys, id, f);
      fees := fees.Update(id, f);
    }

    /**
     * `createFeeGroup`: a LEADER, ADMIN or TREASURER opens a group charging
     * every member of the club, the caller included, one unpaid fee of the
     * amount; every member but the caller is notified. A due date that is
     * not a valid `yyyy-MM-dd` day throws before anything is saved.
     */
    method CreateFeeGroup(rid: nat, callerId: UserId, description: string, amount: int, dueDate: Option<string>, now: Time)
      returns (r: Outcome<nat>)
      requires Valid()
      modifies this, notifier
      ensures Valid()
      ensures rid !in reunions.rows ==> r == Fail(ReunionNotFound)
      ensures rid in reunions.rows ==>
        var clearance := Clearance(users.users, members.rows, rid, callerId, MANAGE_FEES);
        && (clearance.Some? ==> r == Fail(clearance.value))
        && (clearance.None? && DueDateOf(dueDate).Fail? ==> r == Fail(Invalid))
        && (clearance.None? && DueDateOf(dueDate).Ok? && |description| > FEE_DESCRIPTION_MAX ==> r == Fail(ConstraintViolation))
        && (r.Ok? <==> clearance.None? && DueDateOf(dueDate).Ok? && |description| <= FEE_DESCRIPTION_MAX)
      ensures reunions == old(reunions) && members == old(members) && requests == old(requests)
      ensures options == old(options) && votes == old(votes)
      ensures r.Fail? ==> fees == old(fees) && feeGroups == old(feeGroups) && notifier.table == old(notifier.table)
      ensures r.Ok? ==>
        var roster := Roster(members.rows, rid);
        && r.value == old(feeGroups.next)
        && feeGroups == old(feeGroups).Insert(FeeGroup(rid, description, amount, DueDateOf(dueDate).value))
        && fees == Charge(old(fees), rid, r.value, roster, amount)
        && notifier.table == CreatedForEach(old(notifier.table), users.users, Without(roster, callerId),
             Notice(callerId, users.users[callerId].name, "FEE_CREATED",
                    FeeCreatedText(reunions.rows[rid].name, amount), Some(r.value)), now)
    {
      if rid !in reunions.rows {
        return Fail(ReunionNotFound);
      }
      var caller := Authorize(rid, callerId, MANAGE_FEES);
      if caller.Fail? {
        return Fail(caller.error);
      }
      var due := DueDateOf(dueDate);
      if due.Fail? {
        return Fail(due.error);
      }
      if |description| > FEE_DESCRIPTION_MAX {
        return Fail(ConstraintViolation);
      }
      var roster := RosterOf(rid);
      // As in `createReunion`, the notices go first.
      NotifyEach(Without(roster, callerId),
        Notice(callerId, users.users[callerId].name, "FEE_CREATED", FeeCreatedText(reunions.rows[rid].name, amount), Some(feeGroups.next)), now);
      var gid := OpenGroup(FeeGroup(rid, description, amount, due.value), roster);
      r := Ok(gid);
    }

    /** Saves a fee group and one fee of it per listed user. */
    method OpenGroup(g: FeeGroup, us: seq<UserId>) returns (gid: nat)
      requires Valid() && g.reunion in reunions.rows && Distinct(us)
      modifies this
      ensures Valid()
      ensures gid == old(feeGroups.next)
      ensures feeGroups == old(feeGroups).Insert(g)
      ensures fees == Charge(old(fees), g.reunion, gid, us, g.amountPerMember)
      ensures reunions == old(reunions) && members == old(members) && requests == old(requests)
      ensures options == old(options) && votes == old(votes)
    {
      gid := feeGroups.next;
      GroupCharged(fees, feeGroups, reunions.rows.Keys, g, us);
      fees := Charge(fees, g.reunion, gid, us, g.amountPerMember);
      feeGroups := feeGroups.Insert(g);
    }

    /**
     * `addMemberToFeeGroup`: a LEADER, ADMIN or TREASURER of the group's
     * club charges one more user (who need not be a member) the group's
     * amount; a user the group already charges is refused.
     */
    method AddMemberToFeeGroup(gid: nat, callerId: UserId, target: UserId) returns (r: Outcome<nat>)
      requires Valid()
      modifies this
      ensures Valid()
      ensures gid !in feeGroups.rows ==> r == Fail(FeeGroupNotFound)
      ensures gid in feeGroups.rows ==>
        var g := feeGroups.rows[gid];
        var clearance := Clearance(users.users, members.rows, g.reunion, callerId, MANAGE_FEES);
        && (callerId !in users.users || target !in users.users ==> r == Fail(UserNotFound))
        && (target in users.users && clearance.Some? ==> r == Fail(clearance.value))
        && (clearance.None? && target in users.users && FeesOfIn(old(fees.rows), gid, target) != {} ==> r == Fail(AlreadyMember))
        && (r.Ok? <==> clearance.None? && target in users.users && FeesOfIn(old(fees.rows), gid, target) == {})
      ensures reunions == old(reunions) && members == old(members) && requests == old(requests)
      ensures feeGroups == old(feeGroups) && options == old(options) && votes == old(votes)
      ensures r.Fail? ==> fees == old(fees)
      ensures r.Ok? ==>
        var g := feeGroups.rows[gid];
        && r.value == old(fees.next)
        && fees == old(fees).Insert(NewFee(g.reunion, Some(gid), target, g.amountPerMember))
        && FeesOfIn(fees.rows, gid, target) == {r.value}
    {
      if gid !in feeGroups.rows {
        return Fail(FeeGroupNotFound);
      }
      if callerId !in users.users || target !in users.users {
        return Fail(UserNotFound);
      }
      var g := feeGroups.rows[gid];
      var caller := Authorize(g.reunion, callerId, MANAGE_FEES);
      if caller.Fail? {
        return Fail(caller.error);
      }
      if FeesOfIn(fees.rows, gid, target) != {} {
        return Fail(AlreadyMember);
      }
      var id := fees.next;
      FeeAdded(fees, feeGroups, reunions.rows.Keys, gid, target);
      fees := fees.Insert(NewFee(g.reunion, Some(gid), target, g.amountPerMember));
      assert FeesOfIn(fees.rows, gid, target) == {id};
      r := Ok(id);
    }

    /**
     * `removeMemberFromFeeGroup`: a LEADER, ADMIN or TREASURER deletes the
     * fee the group charges the user.
     */
    method RemoveMemberFromFeeGroup(gid: nat, callerId: UserId, target: UserId) returns (r: Outcome<()>)
      requires Valid()
      modifies this
      ensures Valid()
      ensures gid !in feeGroups.rows ==> r == Fail(FeeGroupNotFound)
      ensures gid in feeGroups.rows ==>
        var g := feeGroups.rows[gid];
        var clearance := Clearance(users.users, members.rows, g.reunion, callerId, MANAGE_FEES);
        && (callerId !in users.users || target !in users.users ==> r == Fail(UserNotFound))
        && (target in users.users && clearance.Some? ==> r == Fail(clearance.value))
        && (clearance.None? && target in users.users && FeesOfIn(old(fees.rows), gid, target) == {} ==> r == Fail(FeeNotFound))
        && (r.Ok? <==> clearance.None? && target in users.users && FeesOfIn(old(fees.rows), gid, target) != {})
      ensures reunions == old(reunions) && members == old(members) && requests == old(requests)
      ensures feeGroups == old(feeGroups) && options == old(options) && votes == old(votes)
      ensures r.Fail? ==> fees == old(fees)
      ensures r.Ok? ==>
        && |FeesOfIn(old(fees.rows), gid, target)| == 1
        && fees == old(fees).Delete(FeesOfIn(old(fees.rows), gid, target))
        && FeesOfIn(fees.rows, gid, target) == {}
    {
      if gid !in feeGroups.rows {
        return Fail(FeeGroupNotFound);
      }
      if callerId !in users.users || target !in users.users {
        return Fail(UserNotFound);
      }
      var g := feeGroups.rows[gid];
      var caller := Authorize(g.reunion, callerId, MANAGE_FEES);
      if caller.Fail? {
        return Fail(caller.error);
      }
      var found := FeesOfIn(fees.rows, gid, target);
      if found == {} {
        return Fail(FeeNotFound);
      }
      var id :| id in found;
      forall k | k in found
        ensures k == id
      {
        assert SameGroupFee(fees.rows, k, id);
      }
      assert found == {id};
      FeesDropped(fees, feeGroups, reunions.rows.Keys, found, None);
      fees := fees.Delete(found);
      r := Ok(());
    }

    /** `deleteFeeGroup`: a LEADER, ADMIN or TREASURER deletes the group, and with it every fee of the group. */
    method DeleteFeeGroup(gid: nat, callerId: UserId) returns (r: Outcome<()>)
      requires Valid()
      modifies this
      ensures Valid()
      ensures gid !in old(feeGroups.rows) ==> r == Fail(FeeGroupNotFound)
      ensures gid in old(feeGroups.rows) ==>
        var clearance := Clearance(users.users, members.rows, old(feeGroups.rows)[gid].reunion, callerId, MANAGE_FEES);
        && (clearance.Some? ==> r == Fail(clearance.value))
        && (r.Ok? <==> clearance.None?)
      ensures reunions == old(reunions) && members == old(members) && requests == old(requests)
      ensures options == old(options) && votes == old(votes)
      ensures r.Fail? ==> fees == old(fees) && feeGroups == old(feeGroups)
      ensures r.Ok? ==>
        && feeGroups == old(feeGroups).Delete({gid})
        && fees == old(fees).Delete(GroupFees(old(fees.rows), gid))
        && GroupFees(fees.rows, gid) == {}
    {
      if gid !in feeGroups.rows {
        return Fail(FeeGroupNotFound);
      }
      var caller := Authorize(feeGroups.rows[gid].reunion, callerId, MANAGE_FEES);
      if caller.Fail? {
        return Fail(caller.error);
      }
      var doomed := GroupFees(fees.rows, gid);
      FeesDropped(fees, feeGroups, reunions.rows.Keys, doomed, Some(gid));
      fees := fees.Delete(doomed);
      feeGroups := feeGroups.Delete({gid});
      r := Ok(());
    }

    /**
     * `vote`: the user's vote for a date or place option is cast, or
     * withdrawn when already cast. Club membership is not checked.
     */
    method CastVote(optionId: nat, u: UserId) returns (r: Outcome<()>)
      requires Valid()
      modifies this
      ensures Valid()
      ensures optionId !in options.rows ==> r == Fail(VoteOptionNotFound)
      ensures optionId in options.rows && u !in users.users ==> r == Fail(UserNotFound)
      ensures r.Ok? <==> optionId in options.rows && u in users.users
      ensures reunions == old(reunions) && members == old(members) && requests == old(requests)
      ensures fees == old(fees) && feeGroups == old(feeGroups) && options == old(options)
      ensures r.Fail? ==> votes == old(votes)
      ensures r.Ok? ==> votes == Toggle(old(votes), optionId, u)
    {
      if optionId !in options.rows {
        return Fail(VoteOptionNotFound);
      }
      if u !in users.users {
        return Fail(UserNotFound);
      }
      ToggleKeepsVotes(options, votes, optionId, u);
      votes := Toggle(votes, optionId, u);
      r := Ok(());
    }

    /**
     * The membership of a club just founded: the creator as its LEADER, the
     * invitees as MEMBERs, no treasurer, and the other clubs untouched.
     */
    static lemma Founding(members: Table<Member>, clubs: set<nat>, rid: nat, creator: UserId, invited: seq<UserId>)
      requires MemberTable(members, clubs) && rid !in clubs && Distinct(invited) && creator !in invited
      ensures var ms := Enrol(Enrol(members, rid, [creator], LEADER), rid, invited, MEMBER);
        && MemberTable(ms, clubs + {rid})
        && (forall u :: IsMember(ms.rows, rid, u) <==> u == creator || u in invited)
        && RoleIn(ms.rows, rid, creator) == Some(LEADER)
        && TreasurersOf(ms.rows, rid) == {}
        && forall c, u | c != rid :: IsMember(ms.rows, c, u) == IsMember(members.rows, c, u)
    {
      var founded := Enrol(members, rid, [creator], LEADER);
      var ms := Enrol(founded, rid, invited, MEMBER);
      assert MemberTable(ms, clubs + {rid}) by {
        EnrolKeepsKeys(members, rid, [creator], LEADER);
        forall u
          ensures IsMember(founded.rows, rid, u) <==> u == creator
        {
          EnrolMembership(members, rid, [creator], LEADER, rid, u);
        }
        EnrolKeepsKeys(founded, rid, invited, MEMBER);
      }
      forall c, u
        ensures IsMember(ms.rows, c, u) <==> IsMember(members.rows, c, u) || (c == rid && (u == creator || u in invited))
      {
        EnrolMembership(members, rid, [creator], LEADER, c, u);
        EnrolMembership(founded, rid, invited, MEMBER, c, u);
      }
      assert TreasurersOf(ms.rows, rid) == {} by {
        forall id | id in ms.rows && ms.rows[id].reunion == rid
          ensures ms.rows[id].role != TREASURER
        {
          assert id !in members.rows;
        }
      }
      RoleInRow(ms.rows, members.next);
    }
  }
}
