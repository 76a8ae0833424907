/**
 * Reunion clubs ("동창회"): member roles, the membership table with its
 * one-row-per-member and single-treasurer rules, invite codes, join
 * requests and the date/place votes of a club meeting.
 */
module Reunions {
  import opened Common
  import opened Users

  // ---------------------------------------------------------------------------
  // Roles

  /** ADMIN is the older name of LEADER and is treated exactly like it. */
  datatype MemberRole = ADMIN | LEADER | TREASURER | MEMBER

  /** `isLeaderOrAdmin`. */
  predicate IsLeaderOrAdmin(role: MemberRole) {
    role == LEADER || role == MemberRole.ADMIN
  }

  /** `canManageFees`: the leaders and the treasurer. */
  predicate CanManageFees(role: MemberRole) {
    IsLeaderOrAdmin(role) || role == TREASURER
  }

  /**
   * The roles form a ladder: whoever may lead may manage fees, and the only
   * role with no privilege at all is MEMBER.
   */
  lemma RoleLadder(role: MemberRole)
    ensures IsLeaderOrAdmin(role) ==> CanManageFees(role)
    ensures CanManageFees(role) <==> role != MEMBER
    ensures CanManageFees(role) && !IsLeaderOrAdmin(role) <==> role == TREASURER
  {
  }

  // ---------------------------------------------------------------------------
  // Reunion and ReunionMember

  const NAME_MAX: nat := 100
  const DESCRIPTION_MAX: nat := 500
  const SCHOOL_CODE_MAX: nat := 20
  const SCHOOL_NAME_MAX: nat := 100
  const GRADUATION_YEAR_MAX: nat := 4
  const COVER_IMAGE_URL_MAX: nat := 500

  datatype Reunion = Reunion(
    name: string,
    description: Option<string>,
    schoolCode: Option<string>,
    schoolName: Option<string>,
    graduationYear: Option<string>,
    coverImageUrl: Option<string>,
    inviteCode: string,
    createdBy: UserId)

  /** The text fields of a `CreateReunionRequest` that the club row keeps; null strings are `None`. */
  datatype ReunionRequest = ReunionRequest(
    name: string,
    description: Option<string>,
    schoolCode: Option<string>,
    schoolName: Option<string>,
    graduationYear: Option<string>,
    coverImageUrl: Option<string>)

  /**
   * The `reunions` column lengths a request must fit: name 100, description
   * 500, school code 20, school name 100, graduation year 4, cover image URL
   * 500. The invite code is always six characters and fits its column.
   */
  predicate RequestFits(req: ReunionRequest) {
    && |req.name| <= NAME_MAX
    && FitsIn(req.description, DESCRIPTION_MAX)
    && FitsIn(req.schoolCode, SCHOOL_CODE_MAX)
    && FitsIn(req.schoolName, SCHOOL_NAME_MAX)
    && FitsIn(req.graduationYear, GRADUATION_YEAR_MAX)
    && FitsIn(req.coverImageUrl, COVER_IMAGE_URL_MAX)
  }

  /** The club row `createReunion` saves for a request. */
  function ClubFor(req: ReunionRequest, code: string, creator: UserId): (c: Reunion)
    ensures c.inviteCode == code && c.createdBy == creator
    ensures (c.name, c.description) == (req.name, req.description)
    ensures (c.schoolCode, c.schoolName, c.graduationYear, c.coverImageUrl) ==
            (req.schoolCode, req.schoolName, req.graduationYear, req.coverImageUrl)
  {
    Reunion(req.name, req.description, req.schoolCode, req.schoolName, req.graduationYear, req.coverImageUrl, code, creator)
  }

  datatype Member = Member(reunion: nat, user: UserId, role: MemberRole)

  /** `findByReunionAndUser`: the membership rows of one user in one club. */
  function RowsOf(rows: map<nat, Member>, rid: nat, u: UserId): (r: set<nat>)
    ensures forall id :: id in r <==> id in rows && rows[id].reunion == rid && rows[id].user == u
  {
    set id | id in rows && rows[id].reunion == rid && rows[id].user == u
  }

  /** `existsByReunionAndUser`. */
  predicate IsMember(rows: map<nat, Member>, rid: nat, u: UserId) {
    RowsOf(rows, rid, u) != {}
  }

  /** `findByReunion`: every membership row of the club. */
  function MembersOf(rows: map<nat, Member>, rid: nat): (r: set<nat>)
    ensures forall id :: id in r <==> id in rows && rows[id].reunion == rid
  {
    set id | id in rows && rows[id].reunion == rid
  }

  /** `findByReunionAndRole(reunion, TREASURER)`. */
  function TreasurersOf(rows: map<nat, Member>, rid: nat): (r: set<nat>)
    ensures forall id :: id in r <==> id in rows && rows[id].reunion == rid && rows[id].role == TREASURER
  {
    set id | id in rows && rows[id].reunion == rid && rows[id].role == TREASURER
  }

  predicate HasLeader(rows: map<nat, Member>, rid: nat) {
    exists id | id in rows :: rows[id].reunion == rid && rows[id].role == LEADER
  }

  /** Two rows of the same user in the same club. */
  predicate SameMember(rows: map<nat, Member>, i: nat, j: nat) {
    i in rows && j in rows && rows[i].reunion == rows[j].reunion && rows[i].user == rows[j].user
  }

  /** The unique key (reunion_id, user_id). */
  ghost predicate OnePerMember(rows: map<nat, Member>) {
    forall i, j {:trigger SameMember(rows, i, j)} :: SameMember(rows, i, j) ==> i == j
  }

  /** Two treasurer rows of the same club. */
  predicate TwoTreasurers(rows: map<nat, Member>, i: nat, j: nat) {
    i in rows && j in rows && rows[i].reunion == rows[j].reunion && rows[i].role == TREASURER && rows[j].role == TREASURER
  }

  /**
   * A club has at most one treasurer: `findByReunionAndRole` returns an
   * Optional and would fail on two rows.
   */
  ghost predicate AtMostOneTreasurer(rows: map<nat, Member>) {
    forall i, j {:trigger TwoTreasurers(rows, i, j)} :: TwoTreasurers(rows, i, j) ==> i == j
  }

  /** Under one row per member, a member's row is the only one. */
  lemma OnlyRowOf(rows: map<nat, Member>, id: nat)
    requires OnePerMember(rows) && id in rows
    ensures RowsOf(rows, rows[id].reunion, rows[id].user) == {id}
  {
    forall k | k in RowsOf(rows, rows[id].reunion, rows[id].user)
      ensures k == id
    {
      assert SameMember(rows, k, id);
    }
  }

  /** Under the single-treasurer rule, a treasurer is the only one. */
  lemma OnlyTreasurer(rows: map<nat, Member>, id: nat)
    requires AtMostOneTreasurer(rows) && id in rows && rows[id].role == TREASURER
    ensures TreasurersOf(rows, rows[id].reunion) == {id}
  {
    forall k | k in TreasurersOf(rows, rows[id].reunion)
      ensures k == id
    {
      assert TwoTreasurers(rows, k, id);
    }
  }

  /**
   * Saving one membership row per listed user, in list order (the loops of
   * `createReunion` and `inviteMembers`): row `t.next + i` is the i-th user's.
   */
  function Enrol(t: Table<Member>, rid: nat, us: seq<UserId>, role: MemberRole): (r: Table<Member>)
    requires t.Valid()
    ensures r.Valid() && r.next == t.next + |us|
    ensures forall id :: id in r.rows <==> id in t.rows || t.next <= id < r.next
    ensures forall id | id in t.rows :: r.rows[id] == t.rows[id]
    ensures forall id | id in r.rows && id !in t.rows :: r.rows[id] == Member(rid, us[id - t.next], role)
    decreases |us|
  {
    if us == [] then t
    else
      var front := us[..|us| - 1];
      assert forall i | 0 <= i < |front| :: front[i] == us[i];
      Enrol(t, rid, front, role).Insert(Member(rid, us[|us| - 1], role))
  }

  /**
   * Enrolling distinct users who are not yet members keeps one row per
   * member, and adds no treasurer unless enrolling treasurers.
   */
  lemma EnrolKeepsKeys(t: Table<Member>, rid: nat, us: seq<UserId>, role: MemberRole)
    requires t.Valid() && OnePerMember(t.rows) && Distinct(us)
    requires forall i | 0 <= i < |us| :: !IsMember(t.rows, rid, us[i])
    ensures OnePerMember(Enrol(t, rid, us, role).rows)
    ensures role != TREASURER && AtMostOneTreasurer(t.rows) ==> AtMostOneTreasurer(Enrol(t, rid, us, role).rows)
  {
    var r := Enrol(t, rid, us, role);
    forall i, j | SameMember(r.rows, i, j)
      ensures i == j
    {
      if i in t.rows && j in t.rows {
        assert SameMember(t.rows, i, j);
      }
    }
    if role != TREASURER && AtMostOneTreasurer(t.rows) {
      forall i, j | TwoTreasurers(r.rows, i, j)
        ensures i == j
      {
        assert TwoTreasurers(t.rows, i, j);
      }
    }
  }

  /** After enrolling, a user belongs to a club exactly when they did before or were enrolled into it. */
  lemma EnrolMembership(t: Table<Member>, rid: nat, us: seq<UserId>, role: MemberRole, c: nat, u: UserId)
    requires t.Valid()
    ensures IsMember(Enrol(t, rid, us, role).rows, c, u) <==> IsMember(t.rows, c, u) || (c == rid && u in us)
  {
    if IsMember(t.rows, c, u) {
      EnrolKeepsMembers(t, rid, us, role, c, u);
    } else if c == rid && u in us {
      EnrolAddsMembers(t, rid, us, role, c, u);
    } else if IsMember(Enrol(t, rid, us, role).rows, c, u) {
      EnrolAddsOnlyListed(t, rid, us, role, c, u);
    }
  }

  lemma EnrolKeepsMembers(t: Table<Member>, rid: nat, us: seq<UserId>, role: MemberRole, c: nat, u: UserId)
    requires t.Valid() && IsMember(t.rows, c, u)
    ensures IsMember(Enrol(t, rid, us, role).rows, c, u)
  {
    var id :| id in RowsOf(t.rows, c, u);
    assert id in RowsOf(Enrol(t, rid, us, role).rows, c, u);
  }

  lemma EnrolAddsMembers(t: Table<Member>, rid: nat, us: seq<UserId>, role: MemberRole, c: nat, u: UserId)
    requires t.Valid() && c == rid && u in us
    ensures IsMember(Enrol(t, rid, us, role).rows, c, u)
  {
    var r := Enrol(t, rid, us, role);
    var k :| 0 <= k < |us| && us[k] == u;
    var id := t.next + k;
    assert id in r.rows && id !in t.rows;
    assert id in RowsOf(r.rows, c, u);
  }

  lemma EnrolAddsOnlyListed(t: Table<Member>, rid: nat, us: seq<UserId>, role: MemberRole, c: nat, u: UserId)
    requires t.Valid() && IsMember(Enrol(t, rid, us, role).rows, c, u) && !IsMember(t.rows, c, u)
    ensures c == rid && u in us
  {
    var r := Enrol(t, rid, us, role);
    var id :| id in RowsOf(r.rows, c, u);
    assert id !in t.rows;
    assert r.rows[id] == Member(rid, us[id - t.next], role);
  }

  /**
   * The member who takes over when a leader leaves (`leaveReunion`): the
   * club's treasurer if it has one, otherwise the first remaining member in
   * `findByReunion` order (taken to be id order); `None` when nobody is left.
   */
  ghost predicate IsSuccessor(rows: map<nat, Member>, rid: nat, p: nat) {
    && p in MembersOf(rows, rid)
    && (TreasurersOf(rows, rid) != {} ==> rows[p].role == TREASURER)
    && (TreasurersOf(rows, rid) == {} ==> forall q | q in MembersOf(rows, rid) :: p <= q)
  }

  /** Promoting the successor leaves the club led, and without a treasurer if the treasurer was promoted. */
  lemma SuccessionKeepsClubLed(rows: map<nat, Member>, rid: nat, p: nat)
    requires AtMostOneTreasurer(rows) && IsSuccessor(rows, rid, p)
    ensures HasLeader(rows[p := rows[p].(role := LEADER)], rid)
    ensures AtMostOneTreasurer(rows[p := rows[p].(role := LEADER)])
    ensures TreasurersOf(rows, rid) != {} ==> TreasurersOf(rows[p := rows[p].(role := LEADER)], rid) == {}
  {
    var r := rows[p := rows[p].(role := LEADER)];
    assert r[p].reunion == rid && r[p].role == LEADER;
    forall i, j | TwoTreasurers(r, i, j)
      ensures i == j
    {
      assert TwoTreasurers(rows, i, j);
    }
    if TreasurersOf(rows, rid) != {} {
      OnlyTreasurer(rows, p);
      assert TreasurersOf(r, rid) == {};
    }
  }

  // ---------------------------------------------------------------------------
  // Invite codes

  /** The invite-code alphabet: capitals and digits without the look-alikes I, O, 0 and 1. */
  const ALPHABET: string := "ABCDEFGHJKLMNPQRSTUVWXYZ23456789"
  const CODE_LENGTH: nat := 6

  predicate IsCodeChar(c: char) {
    ('A' <= c <= 'Z' && c != 'I' && c != 'O') || ('2' <= c <= '9')
  }

  predicate IsInviteCode(s: string) {
    |s| == CODE_LENGTH && forall i | 0 <= i < |s| :: IsCodeChar(s[i])
  }

  lemma AlphabetChars()
    ensures forall k | 0 <= k < |ALPHABET| :: IsCodeChar(ALPHABET[k])
  {
  }

  /** One attempt of `generateInviteCode`: six draws of `random.nextInt(32)`. */
  predicate IsAttempt(draws: seq<nat>) {
    |draws| == CODE_LENGTH && forall i | 0 <= i < |draws| :: draws[i] < |ALPHABET|
  }

  /** The code an attempt spells: the alphabet's character at each drawn index. */
  function CodeOf(draws: seq<nat>): (code: string)
    requires IsAttempt(draws)
    ensures IsInviteCode(code)
    ensures forall i | 0 <= i < CODE_LENGTH :: code[i] == ALPHABET[draws[i]]
  {
    AlphabetChars();
    seq(CODE_LENGTH, i requires 0 <= i < CODE_LENGTH && IsAttempt(draws) => ALPHABET[draws[i]])
  }

  /**
   * A code is case-free: it is its own upper case, so `joinByCode`, which
   * upper-cases what the user typed, finds it whether typed in capitals or
   * in small letters.
   */
  lemma InviteCodeIgnoresCase(code: string)
    requires IsInviteCode(code)
    ensures ToUpper(code) == code
    ensures ToUpper(ToLower(code)) == code
  {
    forall i | 0 <= i < |code|
      ensures UpperAscii(code[i]) == code[i] && UpperAscii(LowerAscii(code[i])) == code[i]
    {
    }
  }

  /**
   * `generateInviteCode`: draw six characters, and draw again while the
   * code is already taken. Each attempt's draws are given in order; the
   * result is the code of the first attempt whose code is unused, or `None`
   * if every given attempt collides (the source would keep drawing).
   */
  method GenerateInviteCode(attempts: seq<seq<nat>>, used: set<string>) returns (code: Option<string>)
    requires forall k | 0 <= k < |attempts| :: IsAttempt(attempts[k])
    ensures code.Some? ==> IsInviteCode(code.value) && code.value !in used
    ensures code.Some? ==>
      exists k | 0 <= k < |attempts| ::
        && code.value == CodeOf(attempts[k])
        && forall j | 0 <= j < k :: CodeOf(attempts[j]) in used
    ensures code.None? <==> forall k | 0 <= k < |attempts| :: CodeOf(attempts[k]) in used
  {
    var k := 0;
    while k < |attempts|
      invariant k <= |attempts|
      invariant forall j | 0 <= j < k :: CodeOf(attempts[j]) in used
    {
      var s: string := [];
      for i := 0 to CODE_LENGTH
        invariant s == CodeOf(attempts[k])[..i]
      {
        s := s + [ALPHABET[attempts[k][i]]];
      }
      assert s == CodeOf(attempts[k]);
      if s !in used {
        return Some(s);
      }
      k := k + 1;
    }
    return None;
  }

  // ---------------------------------------------------------------------------
  // ReunionJoinRequest

  datatype JoinStatus = PENDING | APPROVED | REJECTED

  datatype JoinRequest = JoinRequest(reunion: nat, user: UserId, status: JoinStatus, processedAt: Option<Time>)

  /** `findByReunionAndUser` on the request table (also unique on reunion_id, user_id). */
  function RequestsOf(rows: map<nat, JoinRequest>, rid: nat, u: UserId): (r: set<nat>)
    ensures forall id :: id in r <==> id in rows && rows[id].reunion == rid && rows[id].user == u
  {
    set id | id in rows && rows[id].reunion == rid && rows[id].user == u
  }

  /** `existsByReunionAndUserAndStatus(reunion, user, PENDING)`. */
  predicate HasPendingRequest(rows: map<nat, JoinRequest>, rid: nat, u: UserId) {
    exists id | id in rows :: rows[id].reunion == rid && rows[id].user == u && rows[id].status == PENDING
  }

  /** Two requests of the same user for the same club. */
  predicate SameRequester(rows: map<nat, JoinRequest>, i: nat, j: nat) {
    i in rows && j in rows && rows[i].reunion == rows[j].reunion && rows[i].user == rows[j].user
  }

  /** The unique key (reunion_id, user_id) of the request table. */
  ghost predicate OneRequestPerUser(rows: map<nat, JoinRequest>) {
    forall i, j {:trigger SameRequester(rows, i, j)} :: SameRequester(rows, i, j) ==> i == j
  }

  // ---------------------------------------------------------------------------
  // Meeting votes

  datatype OptionKind = DATE | LOCATION

  datatype VoteOption = VoteOption(meeting: nat, kind: OptionKind, value: string)

  datatype Vote = Vote(option: nat, user: UserId)

  /** The users who voted for an option. */
  function Voters(rows: map<nat, Vote>, o: nat): (r: set<UserId>)
    ensures forall u :: u in r <==> exists id | id in rows :: rows[id] == Vote(o, u)
  {
    set id | id in rows && rows[id].option == o :: rows[id].user
  }

  /** A user's vote rows for one option. */
  function VotesOf(rows: map<nat, Vote>, o: nat, u: UserId): (r: set<nat>)
    ensures forall id :: id in r <==> id in rows && rows[id] == Vote(o, u)
  {
    set id | id in rows && rows[id] == Vote(o, u)
  }

  /** Two rows of the same vote. */
  predicate SameVote(rows: map<nat, Vote>, i: nat, j: nat) {
    i in rows && j in rows && rows[i] == rows[j]
  }

  /** A user votes for an option at most once. */
  ghost predicate OneVotePerVoter(rows: map<nat, Vote>) {
    forall i, j {:trigger SameVote(rows, i, j)} :: SameVote(rows, i, j) ==> i == j
  }
}
