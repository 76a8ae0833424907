/**
 * Club fees: the payment status a recorded amount gives, the PAID/UNPAID
 * toggle, the club-wide summary and the totals of a fee group. Amounts are
 * Java `int`s, so every sum and product wraps around at 32 bits.
 */
module Fees {
  import opened Common
  import opened Users

  datatype FeeStatus = UNPAID | PARTIAL | PAID

  datatype Fee = Fee(
    reunion: nat,
    group: Option<nat>,
    user: UserId,
    amount: int,
    paidAmount: int,
    status: FeeStatus,
    paidAt: Option<Time>)

  datatype FeeGroup = FeeGroup(reunion: nat, description: string, amountPerMember: int, dueDate: Option<Date>)

  /**
   * The due date `createFeeGroup` reads from its request: none for a null
   * or empty text, otherwise `LocalDate.parse`, whose exception fails the
   * call.
   */
  function DueDateOf(text: Option<string>): (r: Outcome<Option<Date>>)
    ensures !NonEmpty(text) ==> r == Ok(None)
    ensures NonEmpty(text) ==> (r.Ok? <==> ParseIsoDate(text.value).Some?)
    ensures r.Fail? ==> r.error == Invalid
    ensures r.Ok? && r.value.Some? ==>
      ValidDate(r.value.value) && 0 <= r.value.value.year && FormatIsoDate(r.value.value) == text.value
  {
    if !NonEmpty(text) then Ok(None)
    else
      match ParseIsoDate(text.value)
      case Some(d) => ParsedDateIsItsText(text.value); Ok(Some(d))
      case None => Fail(Invalid)
  }

  /** The `description` columns of fees and fee groups hold at most 200 characters. */
  const FEE_DESCRIPTION_MAX: nat := 200

  /** A new fee row: nothing paid yet. */
  function NewFee(reunion: nat, group: Option<nat>, user: UserId, amount: int): (f: Fee)
    ensures f.status == UNPAID && f.paidAmount == 0 && f.paidAt.None?
  {
    Fee(reunion, group, user, amount, 0, UNPAID, None)
  }

  /** The status `updateFeePayment` derives from the paid amount. */
  function PaymentStatus(paid: int, amount: int): (s: FeeStatus)
    ensures s == PAID <==> paid >= amount
    ensures s == PARTIAL <==> 0 < paid < amount
    ensures s == UNPAID <==> paid <= 0 && paid < amount
  {
    if paid >= amount then PAID else if paid > 0 then PARTIAL else UNPAID
  }

  /** A fee whose status agrees with its paid amount. */
  predicate Consistent(f: Fee) {
    f.status == PaymentStatus(f.paidAmount, f.amount)
  }

  /** `updateFeePayment` on the row: the paid amount is recorded as given, stamped now. */
  function Recorded(f: Fee, paid: int, now: Time): (g: Fee)
    ensures Consistent(g)
    ensures g.paidAmount == paid && g.paidAt == Some(now)
    ensures g.amount == f.amount && g.user == f.user && g.reunion == f.reunion && g.group == f.group
  {
    f.(paidAmount := paid, paidAt := Some(now), status := PaymentStatus(paid, f.amount))
  }

  /** `toggleFeePayment` on the row. */
  function Toggled(f: Fee, now: Time): (g: Fee)
    ensures g.amount == f.amount && g.user == f.user && g.reunion == f.reunion && g.group == f.group
  {
    if f.status == PAID then f.(status := UNPAID, paidAmount := 0, paidAt := None)
    else f.(status := PAID, paidAmount := f.amount, paidAt := Some(now))
  }

  /**
   * The toggle flips between PAID and UNPAID (a PARTIAL fee becomes PAID),
   * a fresh fee toggled twice is back where it started, and a fee of a
   * positive amount stays consistent.
   */
  lemma ToggleFlips(f: Fee, t1: Time, t2: Time)
    ensures (Toggled(f, t1).status == PAID) <==> f.status != PAID
    ensures Toggled(f, t1).status == PAID ==> Toggled(f, t1).paidAmount == f.amount
    ensures f.status == UNPAID && f.paidAmount == 0 && f.paidAt.None? ==> Toggled(Toggled(f, t1), t2) == f
    ensures f.amount > 0 ==> Consistent(Toggled(f, t1))
  {
  }

  /**
   * For a fee of amount zero the toggle's UNPAID state disagrees with what
   * `updateFeePayment` would derive from the same paid amount.
   */
  lemma ZeroFeeToggleInconsistent(u: UserId, now: Time)
    ensures !Consistent(Toggled(Fee(0, None, u, 0, 0, PAID, Some(now)), now))
  {
    assert Toggled(Fee(0, None, u, 0, 0, PAID, Some(now)), now).status == UNPAID;
  }

  // ---------------------------------------------------------------------------
  // The fee and fee-group tables

  /** `findByReunion...`: the ids of a club's fees. */
  function ClubFees(rows: map<nat, Fee>, rid: nat): (r: set<nat>)
    ensures forall id :: id in r <==> id in rows && rows[id].reunion == rid
  {
    set id | id in rows && rows[id].reunion == rid
  }

  /** `findByFeeGroup`: the ids of a group's fees. */
  function GroupFees(rows: map<nat, Fee>, gid: nat): (r: set<nat>)
    ensures forall id :: id in r <==> id in rows && rows[id].group == Some(gid)
  {
    set id | id in rows && rows[id].group == Some(gid)
  }

  /** `findByFeeGroupAndUser`. */
  function FeesOfIn(rows: map<nat, Fee>, gid: nat, u: UserId): (r: set<nat>)
    ensures forall id :: id in r <==> id in rows && rows[id].group == Some(gid) && rows[id].user == u
  {
    set id | id in rows && rows[id].group == Some(gid) && rows[id].user == u
  }

  /** `feeGroupRepository.findByReunion...`: the ids of a club's fee groups. */
  function GroupsOf(rows: map<nat, FeeGroup>, rid: nat): (r: set<nat>)
    ensures forall id :: id in r <==> id in rows && rows[id].reunion == rid
  {
    set id | id in rows && rows[id].reunion == rid
  }

  /** The ids among `ids` of the fees in status `s`. */
  function InStatus(rows: map<nat, Fee>, ids: set<nat>, s: FeeStatus): (r: set<nat>)
    ensures forall id :: id in r <==> id in ids && id in rows && rows[id].status == s
  {
    set id | id in ids && id in rows && rows[id].status == s
  }

  /** The fees a list of ids denotes, in the list's order. */
  function FeeList(rows: map<nat, Fee>, ids: seq<nat>): (fs: seq<Fee>)
    requires forall i | 0 <= i < |ids| :: ids[i] in rows
    ensures |fs| == |ids| && forall i | 0 <= i < |ids| :: fs[i] == rows[ids[i]]
  {
    seq(|ids|, i requires 0 <= i < |ids| && ids[i] in rows => rows[ids[i]])
  }

  /**
   * `createFeeGroup`'s loop: one new fee of the group per listed user, in
   * list order; fee `t.next + i` is the i-th user's.
   */
  function Charge(t: Table<Fee>, rid: nat, gid: nat, us: seq<UserId>, amount: int): (r: Table<Fee>)
    requires t.Valid()
    ensures r.Valid() && r.next == t.next + |us|
    ensures forall id :: id in r.rows <==> id in t.rows || t.next <= id < r.next
    ensures forall id | id in t.rows :: r.rows[id] == t.rows[id]
    ensures forall id | id in r.rows && id !in t.rows :: r.rows[id] == NewFee(rid, Some(gid), us[id - t.next], amount)
    decreases |us|
  {
    if us == [] then t
    else
      var front := us[..|us| - 1];
      assert forall i | 0 <= i < |front| :: front[i] == us[i];
      Charge(t, rid, gid, front, amount).Insert(NewFee(rid, Some(gid), us[|us| - 1], amount))
  }

  /**
   * Counting a status along a list of distinct stored fees counts the
   * stored fees of that status: the repository's `countBy...Status` and the
   * stream's filter agree.
   */
  lemma {:induction false} CountIsCardinality(rows: map<nat, Fee>, ids: seq<nat>, all: set<nat>, s: FeeStatus)
    requires Distinct(ids) && forall i | 0 <= i < |ids| :: ids[i] in rows
    requires forall id :: id in ids <==> id in all
    ensures CountStatus(FeeList(rows, ids), s) == |InStatus(rows, all, s)|
    decreases |ids|
  {
    if ids == [] {
      assert InStatus(rows, all, s) == {};
    } else {
      var front, last := ids[..|ids| - 1], ids[|ids| - 1];
      DropLast(ids, front, all);
      CountIsCardinality(rows, front, all - {last}, s);
      CountLast(rows, ids, front, s);
      StatusSetLast(rows, all, last, s);
    }
  }

  /** Counting along a list adds the last fee's status to the count of the front. */
  lemma CountLast(rows: map<nat, Fee>, ids: seq<nat>, front: seq<nat>, s: FeeStatus)
    requires ids != [] && front == ids[..|ids| - 1] && forall i | 0 <= i < |ids| :: ids[i] in rows
    ensures CountStatus(FeeList(rows, ids), s)
         == CountStatus(FeeList(rows, front), s) + (if rows[ids[|ids| - 1]].status == s then 1 else 0)
  {
    var fs := FeeList(rows, ids);
    assert fs[..|fs| - 1] == FeeList(rows, front);
  }

  /** Taking one stored id out of a set takes it out of the set's fees of its status, and only there. */
  lemma StatusSetLast(rows: map<nat, Fee>, all: set<nat>, last: nat, s: FeeStatus)
    requires last in all && last in rows
    ensures |InStatus(rows, all, s)| == |InStatus(rows, all - {last}, s)| + (if rows[last].status == s then 1 else 0)
  {
    var rest := InStatus(rows, all - {last}, s);
    if rows[last].status == s {
      assert InStatus(rows, all, s) == rest + {last};
    } else {
      assert InStatus(rows, all, s) == rest;
    }
  }

  /** The front of a list without repetitions holds every element but the last. */
  lemma DropLast(ids: seq<nat>, front: seq<nat>, all: set<nat>)
    requires Distinct(ids) && ids != [] && forall id :: id in ids <==> id in all
    requires front == ids[..|ids| - 1]
    ensures Distinct(front)
    ensures forall id :: id in front <==> id in all - {ids[|ids| - 1]}
  {
    assert forall i | 0 <= i < |front| :: front[i] == ids[i];
    forall id | id in all - {ids[|ids| - 1]}
      ensures id in front
    {
      var k :| 0 <= k < |ids| && ids[k] == id;
      assert front[k] == id;
    }
  }

  // ---------------------------------------------------------------------------
  // Sums and counts over a list of fees

  function SumAmount(fs: seq<Fee>): int
    decreases |fs|
  {
    if fs == [] then 0 else SumAmount(fs[..|fs| - 1]) + fs[|fs| - 1].amount
  }

  function SumPaid(fs: seq<Fee>): int
    decreases |fs|
  {
    if fs == [] then 0 else SumPaid(fs[..|fs| - 1]) + fs[|fs| - 1].paidAmount
  }

  /** The amount still owed on each fee, added up. */
  function SumOwed(fs: seq<Fee>): int
    decreases |fs|
  {
    if fs == [] then 0 else SumOwed(fs[..|fs| - 1]) + (fs[|fs| - 1].amount - fs[|fs| - 1].paidAmount)
  }

  /** `amount` summed over the PAID fees only. */
  function SumPaidAmounts(fs: seq<Fee>): int
    decreases |fs|
  {
    if fs == [] then 0
    else SumPaidAmounts(fs[..|fs| - 1]) + (if fs[|fs| - 1].status == PAID then fs[|fs| - 1].amount else 0)
  }

  function CountStatus(fs: seq<Fee>, s: FeeStatus): (n: nat)
    ensures n <= |fs|
    decreases |fs|
  {
    if fs == [] then 0 else CountStatus(fs[..|fs| - 1], s) + (if fs[|fs| - 1].status == s then 1 else 0)
  }

  lemma {:induction false} OwedIsDifference(fs: seq<Fee>)
    ensures SumOwed(fs) == SumAmount(fs) - SumPaid(fs)
    decreases |fs|
  {
    if fs != [] {
      OwedIsDifference(fs[..|fs| - 1]);
    }
  }

  lemma {:induction false} StatusesPartition(fs: seq<Fee>)
    ensures CountStatus(fs, PAID) + CountStatus(fs, PARTIAL) + CountStatus(fs, UNPAID) == |fs|
    decreases |fs|
  {
    if fs != [] {
      StatusesPartition(fs[..|fs| - 1]);
    }
  }

  /** When every fee charges the same amount, the PAID fees add up to that amount per paid fee. */
  lemma {:induction false} UniformPaidAmounts(fs: seq<Fee>, per: int)
    requires forall i | 0 <= i < |fs| :: fs[i].amount == per
    ensures SumPaidAmounts(fs) == per * CountStatus(fs, PAID)
    decreases |fs|
  {
    if fs != [] {
      var front := fs[..|fs| - 1];
      assert forall i | 0 <= i < |front| :: front[i] == fs[i];
      UniformPaidAmounts(front, per);
      if fs[|fs| - 1].status == PAID {
        calc {
          SumPaidAmounts(fs);
          per * CountStatus(front, PAID) + per;
          per * (CountStatus(front, PAID) + 1);
        }
      }
    }
  }

  /** Two Java `int` results that agree modulo 2^32 are the same `int`. */
  lemma Wrap32Congruent(x: int, y: int)
    requires (x - y) % TWO_TO_THE_32 == 0
    ensures Wrap32(x) == Wrap32(y)
  {
    var k := (x - y) / TWO_TO_THE_32;
    assert x == y + k * TWO_TO_THE_32;
    ModShift(y + TWO_TO_THE_31, k);
  }

  lemma ModShift(a: int, k: int)
    ensures (a + k * TWO_TO_THE_32) % TWO_TO_THE_32 == a % TWO_TO_THE_32
  {
    var m := TWO_TO_THE_32;
    var q := a / m;
    var r := a % m;
    assert a == q * m + r && 0 <= r < m;
    assert a + k * m == (q + k) * m + r;
  }

  // ---------------------------------------------------------------------------
  // getFeeSummary and the fee-group response

  datatype FeeSummary = FeeSummary(
    totalAmount: int,
    totalPaid: int,
    totalUnpaid: int,
    paidCount: nat,
    unpaidCount: nat,
    partialCount: nat)

  /** `getFeeSummary` over the club's fees: `int` sums, and the unpaid total as their difference. */
  function Summary(fs: seq<Fee>): (s: FeeSummary)
    ensures InInt32(s.totalAmount) && InInt32(s.totalPaid) && InInt32(s.totalUnpaid)
  {
    FeeSummary(Wrap32(SumAmount(fs)), Wrap32(SumPaid(fs)), Wrap32(Wrap32(SumAmount(fs)) - Wrap32(SumPaid(fs))),
               CountStatus(fs, PAID), CountStatus(fs, UNPAID), CountStatus(fs, PARTIAL))
  }

  /**
   * The three counts cover every fee exactly once, and the unpaid total is
   * what is still owed fee by fee, up to `int` wrap-around (exactly, when
   * no sum leaves the `int` range).
   */
  lemma SummaryMeaning(fs: seq<Fee>)
    ensures Summary(fs).paidCount + Summary(fs).unpaidCount + Summary(fs).partialCount == |fs|
    ensures Summary(fs).totalUnpaid == Wrap32(SumOwed(fs))
    ensures InInt32(SumAmount(fs)) && InInt32(SumPaid(fs)) && InInt32(SumOwed(fs)) ==>
      Summary(fs).totalUnpaid == SumOwed(fs)
  {
    StatusesPartition(fs);
    OwedIsDifference(fs);
    var amount, paid := SumAmount(fs), SumPaid(fs);
    WrapDifference(amount, paid);
  }

  /** Subtracting wrapped `int`s wraps the exact difference. */
  lemma WrapDifference(a: int, p: int)
    ensures Wrap32(Wrap32(a) - Wrap32(p)) == Wrap32(a - p)
  {
    var m := TWO_TO_THE_32;
    var ka := (Wrap32(a) - a) / m;
    var kp := (Wrap32(p) - p) / m;
    MultipleOf(Wrap32(a) - a);
    MultipleOf(Wrap32(p) - p);
    assert (Wrap32(a) - Wrap32(p)) - (a - p) == (ka - kp) * m;
    ModShift(0, ka - kp);
    Wrap32Congruent(Wrap32(a) - Wrap32(p), a - p);
  }

  lemma MultipleOf(d: int)
    requires d % TWO_TO_THE_32 == 0
    ensures d == (d / TWO_TO_THE_32) * TWO_TO_THE_32
  {
  }

  datatype GroupTotals = GroupTotals(
    totalMembers: nat,
    paidCount: nat,
    unpaidCount: nat,
    totalAmount: int,
    totalPaid: int)

  /** `toFeeGroupResponse`'s figures over the group's fees. */
  function Totals(g: FeeGroup, fs: seq<Fee>): (t: GroupTotals)
    ensures InInt32(t.totalAmount) && InInt32(t.totalPaid)
  {
    var paid := CountStatus(fs, PAID);
    GroupTotals(|fs|, paid, |fs| - paid, Wrap32(g.amountPerMember * |fs|), Wrap32(SumPaidAmounts(fs)))
  }

  /**
   * Paid and unpaid members add up to the group (a PARTIAL fee counts as
   * unpaid), and when every fee of the group charges the group's amount
   * the paid total is that amount times the paid count.
   */
  lemma TotalsMeaning(g: FeeGroup, fs: seq<Fee>)
    ensures Totals(g, fs).paidCount + Totals(g, fs).unpaidCount == Totals(g, fs).totalMembers == |fs|
    ensures Totals(g, fs).unpaidCount == CountStatus(fs, UNPAID) + CountStatus(fs, PARTIAL)
    ensures (forall i | 0 <= i < |fs| :: fs[i].amount == g.amountPerMember) ==>
      Totals(g, fs).totalPaid == Wrap32(g.amountPerMember * Totals(g, fs).paidCount)
  {
    StatusesPartition(fs);
    if forall i | 0 <= i < |fs| :: fs[i].amount == g.amountPerMember {
      UniformPaidAmounts(fs, g.amountPerMember);
    }
  }
}
