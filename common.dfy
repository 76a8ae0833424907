/**
 * Shared vocabulary of the model: optional values, the outcome of a
 * transactional service call, identity-generated tables, and the few Java
 * string and integer operations the services rely on.
 */
module Common {

  datatype Option<T> = None | Some(value: T)

  /** A point of the server clock; the clock itself is a parameter of every call that reads it. */
  type Time = int

  /**
   * Why a service call threw. Every service method runs in one transaction,
   * so a failed call is modelled as `Fail(e)` together with an unchanged store.
   */
  datatype Error =
    | UserNotFound | RoomNotFound | MessageNotFound | NotificationNotFound
    | FriendshipNotFound | ReunionNotFound | JoinRequestNotFound | InvalidInviteCode
    | FeeNotFound | FeeGroupNotFound | VoteOptionNotFound
    | PostNotFound | CommentNotFound | ParentCommentNotFound | EntryNotFound
    | Forbidden            // the caller lacks the role or ownership the operation checks
    | NotMember            // the caller or the target is not a member of the room or club
    | AlreadyMember
    | AlreadyFriends
    | AlreadyRequested
    | SelfTarget           // a friend request to oneself, kicking oneself
    | DuplicateUserId
    | DuplicateEmail
    | BadCredentials
    | Mismatch             // identity data (name, e-mail) does not match the account
    | ConstraintViolation  // the database rejects the row (column length, uniqueness)
    | Invalid              // a request the service rejects, or a Java runtime exception

  datatype Outcome<T> = Ok(value: T) | Fail(error: Error)

  /**
   * A table whose primary key comes from an identity column: every stored
   * id is below `next`, and an insert takes `next`, so ids grow with the
   * order of insertion.
   */
  datatype Table<T> = Table(rows: map<nat, T>, next: nat)
  {
    ghost predicate Valid() {
      forall id | id in rows :: id < next
    }

    /** Saving a new row: it receives a fresh id larger than every id already stored. */
    function Insert(row: T): (t: Table<T>)
      requires Valid()
      ensures t.Valid()
      ensures next !in rows && t.rows.Keys == rows.Keys + {next}
      ensures t.rows[next] == row && t.next == next + 1
      ensures forall id | id in rows :: id < next && t.rows[id] == rows[id]
    {
      Table(rows[next := row], next + 1)
    }

    /** Overwriting an existing row in place (a managed entity's setters, flushed at commit). */
    function Update(id: nat, row: T): (t: Table<T>)
      requires id in rows
      ensures Valid() ==> t.Valid()
      ensures t.rows.Keys == rows.Keys && t.next == next && t.rows[id] == row
    {
      Table(rows[id := row], next)
    }

    function Delete(ids: set<nat>): (t: Table<T>)
      ensures Valid() ==> t.Valid()
      ensures t.rows.Keys == rows.Keys - ids && t.next == next
      ensures forall id | id in t.rows :: t.rows[id] == rows[id]
    {
      Table(rows - ids, next)
    }
  }

  function EmptyTable<T>(): (t: Table<T>)
    ensures t.Valid() && t.rows == map[]
  {
    Table(map[], 0)
  }

  /** A list in the table's id order, newest (largest id) first. */
  predicate NewestFirstOrder(ids: seq<nat>) {
    forall i, j | 0 <= i < j < |ids| :: ids[i] > ids[j]
  }

  /** A list without repeats that holds exactly the elements of `s` has |s| entries. */
  lemma {:induction false} ListLengthIsCardinality(ids: seq<nat>, s: set<nat>)
    requires NewestFirstOrder(ids)
    requires forall id :: id in ids <==> id in s
    ensures |ids| == |s|
    decreases |ids|
  {
    if ids != [] {
      var rest := ids[1..];
      assert forall id :: id in rest <==> id in s - {ids[0]} by {
        forall id ensures id in rest <==> id in s - {ids[0]} {
          if id in rest {
            var k :| 0 <= k < |rest| && rest[k] == id;
            assert ids[k + 1] == id;
          }
          if id in s - {ids[0]} {
            assert id in ids;
            var k :| 0 <= k < |ids| && ids[k] == id;
            assert k != 0;
            assert rest[k - 1] == id;
          }
        }
      }
      ListLengthIsCardinality(rest, s - {ids[0]});
    } else {
      assert s == {};
    }
  }

  /** A list in the table's id order, oldest (smallest id) first. */
  predicate OldestFirstOrder(ids: seq<nat>) {
    forall i, j | 0 <= i < j < |ids| :: ids[i] < ids[j]
  }

  /**
   * A query `... WHERE keep(row) ORDER BY createdAt DESC`, optionally with a
   * row limit (`findTop50By...`). Creation times are taken to grow with the
   * identity column, so the newest rows are those with the largest ids.
   */
  method SelectNewest<T>(t: Table<T>, keep: T -> bool, limit: Option<nat>) returns (ids: seq<nat>)
    requires t.Valid()
    ensures NewestFirstOrder(ids)
    ensures forall i | 0 <= i < |ids| :: ids[i] in t.rows && keep(t.rows[ids[i]])
    ensures limit.Some? ==> |ids| <= limit.value
    ensures limit.None? || |ids| < limit.value ==>
      forall id | id in t.rows && keep(t.rows[id]) :: id in ids
    ensures forall id | id in t.rows && keep(t.rows[id]) && id !in ids ::
      forall i | 0 <= i < |ids| :: id < ids[i]
  {
    ids := [];
    var k := t.next;
    while k > 0 && (limit.None? || |ids| < limit.value)
      invariant k <= t.next
      invariant limit.Some? ==> |ids| <= limit.value
      invariant NewestFirstOrder(ids)
      invariant forall i | 0 <= i < |ids| :: ids[i] in t.rows && keep(t.rows[ids[i]]) && k <= ids[i]
      invariant forall id | id in t.rows && keep(t.rows[id]) && k <= id :: id in ids
    {
      k := k - 1;
      if k in t.rows && keep(t.rows[k]) {
        ids := ids + [k];
      }
    }
  }

  /** A query `... WHERE keep(row) ORDER BY createdAt ASC`: every matching row, oldest first. */
  method SelectOldest<T>(t: Table<T>, keep: T -> bool) returns (ids: seq<nat>)
    requires t.Valid()
    ensures OldestFirstOrder(ids)
    ensures forall id :: id in ids <==> id in t.rows && keep(t.rows[id])
  {
    ids := [];
    var k := 0;
    while k < t.next
      invariant k <= t.next
      invariant OldestFirstOrder(ids)
      invariant forall i | 0 <= i < |ids| :: ids[i] < k
      invariant forall id :: id in ids <==> id in t.rows && keep(t.rows[id]) && id < k
    {
      if k in t.rows && keep(t.rows[k]) {
        ids := ids + [k];
      }
      k := k + 1;
    }
  }

  /** The largest id of a non-empty set. */
  ghost function Largest(s: set<nat>): (m: nat)
    requires s != {}
    ensures m in s && forall k | k in s :: k <= m
    decreases |s|
  {
    var x :| x in s;
    assert forall k | k in s :: k == x || k in s - {x};
    if s - {x} == {} then x
    else
      var rest := Largest(s - {x});
      if x <= rest then rest else x
  }

  /**
   * The ids of a set in increasing order: what `findBy...` without an
   * ORDER BY returns, taken to follow the identity column.
   */
  ghost function Ascending(s: set<nat>): (ids: seq<nat>)
    ensures OldestFirstOrder(ids)
    ensures forall id :: id in ids <==> id in s
    decreases |s|
  {
    if s == {} then []
    else
      var m := Largest(s);
      var front := Ascending(s - {m});
      assert forall i | 0 <= i < |front| :: front[i] in s - {m};
      AppendLarger(front, m);
      front + [m]
  }

  /** An increasing list stays increasing when an id larger than all of it is appended. */
  lemma AppendLarger(front: seq<nat>, m: nat)
    requires OldestFirstOrder(front) && forall i | 0 <= i < |front| :: front[i] < m
    ensures OldestFirstOrder(front + [m])
    ensures forall id :: id in front + [m] <==> id in front || id == m
  {
  }

  /** The ids of a set in decreasing order: `... ORDER BY createdAt DESC` over the whole set. */
  ghost function Descending(s: set<nat>): (ids: seq<nat>)
    ensures NewestFirstOrder(ids)
    ensures forall id :: id in ids <==> id in s
  {
    Reversed(Ascending(s))
  }

  function Reversed(a: seq<nat>): (r: seq<nat>)
    ensures |r| == |a| && forall i | 0 <= i < |a| :: r[i] == a[|a| - 1 - i]
    ensures forall x :: x in r <==> x in a
    ensures OldestFirstOrder(a) ==> NewestFirstOrder(r)
    ensures NewestFirstOrder(a) ==> OldestFirstOrder(r)
  {
    var r := seq(|a|, i requires 0 <= i < |a| => a[|a| - 1 - i]);
    assert forall x | x in a :: x in r by {
      forall x | x in a
        ensures x in r
      {
        var k :| 0 <= k < |a| && a[k] == x;
        assert r[|a| - 1 - k] == x;
      }
    }
    r
  }

  /** The last id of an increasing list is its largest, and dropping it leaves exactly the others. */
  lemma LastOfSorted(a: seq<nat>)
    requires OldestFirstOrder(a) && a != []
    ensures forall x | x in a :: x <= a[|a| - 1]
    ensures forall z :: z in a[..|a| - 1] <==> z in a && z != a[|a| - 1]
    ensures OldestFirstOrder(a[..|a| - 1])
  {
    var front := a[..|a| - 1];
    assert forall i | 0 <= i < |front| :: front[i] == a[i];
    forall x | x in a
      ensures x <= a[|a| - 1]
    {
      var k :| 0 <= k < |a| && a[k] == x;
    }
    forall z | z in a && z != a[|a| - 1]
      ensures z in a[..|a| - 1]
    {
      var k :| 0 <= k < |a| && a[k] == z;
      assert a[..|a| - 1][k] == z;
    }
  }

  /** Two increasing lists of the same ids are the same list. */
  lemma {:induction false} SortedUnique(a: seq<nat>, b: seq<nat>)
    requires OldestFirstOrder(a) && OldestFirstOrder(b)
    requires forall x :: x in a <==> x in b
    ensures a == b
    decreases |a| + |b|, if a == [] then 1 else 0
  {
    if a == [] {
      if b != [] {
        SortedUnique(b, a);
      }
    } else {
      assert a[|a| - 1] in b;
      LastOfSorted(a);
      LastOfSorted(b);
      var x := a[|a| - 1];
      assert b[|b| - 1] in a;
      assert x == b[|b| - 1];
      var a', b' := a[..|a| - 1], b[..|b| - 1];
      forall z
        ensures z in a' <==> z in b'
      {
        assert z in a <==> z in b;
      }
      SortedUnique(a', b');
      assert a == a[..|a| - 1] + [x];
      assert b == b[..|b| - 1] + [x];
    }
  }

  /** An increasing list of exactly the ids of `s` is `Ascending(s)`, a decreasing one `Descending(s)`. */
  lemma OrderedListOf(ids: seq<nat>, s: set<nat>)
    requires forall id :: id in ids <==> id in s
    ensures OldestFirstOrder(ids) ==> ids == Ascending(s)
    ensures NewestFirstOrder(ids) ==> ids == Descending(s)
  {
    if OldestFirstOrder(ids) {
      SortedUnique(ids, Ascending(s));
    }
    if NewestFirstOrder(ids) {
      var r := Reversed(ids);
      SortedUnique(r, Ascending(s));
      ReversedTwice(ids);
    }
  }

  lemma ReversedTwice(a: seq<nat>)
    ensures Reversed(Reversed(a)) == a
  {
    var r := Reversed(Reversed(a));
    assert forall i | 0 <= i < |a| :: r[i] == a[i];
  }

  predicate Distinct<T(==)>(s: seq<T>) {
    forall i, j | 0 <= i < j < |s| :: s[i] != s[j]
  }

  /** A list without repetitions keeps none when a new element is appended. */
  lemma AppendFresh<T>(s: seq<T>, x: T)
    requires Distinct(s) && x !in s
    ensures Distinct(s + [x])
  {
  }

  /** The elements other than `x`, in order: the loops that skip the caller. */
  function Without<T(==,!new)>(s: seq<T>, x: T): (r: seq<T>)
    ensures forall y :: y in r <==> y in s && y != x
    ensures |r| <= |s|
  {
    if s == [] then []
    else
      var front := Without(s[..|s| - 1], x);
      assert forall y :: y in s <==> y in s[..|s| - 1] || y == s[|s| - 1];
      if s[|s| - 1] == x then front else front + [s[|s| - 1]]
  }

  /** Leaving one element out keeps a list free of repeats. */
  lemma {:induction false} WithoutDistinct<T(!new)>(s: seq<T>, x: T)
    requires Distinct(s)
    ensures Distinct(Without(s, x))
  {
    if s != [] {
      assert Distinct(s[..|s| - 1]);
      WithoutDistinct(s[..|s| - 1], x);
      if s[|s| - 1] != x {
        AppendFresh(Without(s[..|s| - 1], x), s[|s| - 1]);
      }
    }
  }

  /** `ORDER BY lastMessageAt DESC NULLS LAST`: a row stamped `a` may be listed before one stamped `b`. */
  predicate NoLaterThan(a: Option<Time>, b: Option<Time>) {
    b.None? || (a.Some? && a.value >= b.value)
  }

  /** Every non-empty set of rows has one whose time is the most recent. */
  lemma {:induction false} MostRecentExists(times: map<nat, Option<Time>>, s: set<nat>)
    requires s != {} && s <= times.Keys
    ensures exists m | m in s :: forall o | o in s :: NoLaterThan(times[m], times[o])
    decreases |s|
  {
    var x :| x in s;
    if s == {x} {
      assert forall o | o in s :: o == x;
    } else {
      MostRecentExists(times, s - {x});
      var m :| m in s - {x} && forall o | o in s - {x} :: NoLaterThan(times[m], times[o]);
      if NoLaterThan(times[x], times[m]) {
        assert forall o | o in s :: NoLaterThan(times[x], times[o]);
      } else {
        assert forall o | o in s :: NoLaterThan(times[m], times[o]);
      }
    }
  }

  /**
   * A query over the rows `s` ordered by `lastMessageAt DESC NULLS LAST`:
   * each row exactly once, the most recent first and the rows without a
   * time last; rows with equal times come in an unspecified order.
   */
  method OrderByRecency(times: map<nat, Option<Time>>, s: set<nat>) returns (ids: seq<nat>)
    requires s <= times.Keys
    ensures forall i | 0 <= i < |ids| :: ids[i] in s
    ensures forall id | id in s :: id in ids
    ensures Distinct(ids)
    ensures forall i, j | 0 <= i < j < |ids| :: NoLaterThan(times[ids[i]], times[ids[j]])
  {
    var rest := s;
    ids := [];
    while rest != {}
      invariant rest <= s
      invariant forall i | 0 <= i < |ids| :: ids[i] in s && ids[i] !in rest
      invariant forall id | id in s && id !in rest :: id in ids
      invariant Distinct(ids)
      invariant forall i, j | 0 <= i < j < |ids| :: NoLaterThan(times[ids[i]], times[ids[j]])
      invariant forall i, o | 0 <= i < |ids| && o in rest :: NoLaterThan(times[ids[i]], times[o])
      decreases |rest|
    {
      MostRecentExists(times, rest);
      var m :| m in rest && forall o | o in rest :: NoLaterThan(times[m], times[o]);
      ids := ids + [m];
      rest := rest - {m};
    }
  }

  // ---------------------------------------------------------------------------
  // Java strings. A Dafny `string` is a sequence of Unicode scalar values; Java
  // counts UTF-16 code units, which differs only for characters outside the
  // Basic Multilingual Plane.

  /** The characters `String.trim()` removes: every code point up to U+0020. */
  predicate IsTrimmed(c: char) {
    c <= ' '
  }

  /** `String.trim()`: drops leading and trailing characters up to U+0020. */
  function Trim(s: string): (r: string)
    ensures |r| <= |s|
    ensures r != [] ==> !IsTrimmed(r[0]) && !IsTrimmed(r[|r| - 1])
    ensures r == [] <==> forall i | 0 <= i < |s| :: IsTrimmed(s[i])
  {
    TrimEnd(TrimStart(s))
  }

  /**
   * What `trim()` returns: a piece of the input such that everything before
   * it and everything after it is a character trim removes.
   */
  lemma TrimIsCut(s: string)
    ensures exists k :: CutAt(s, Trim(s), k)
  {
    var t := TrimStart(s);
    var r := TrimEnd(t);
    var k := |s| - |t|;
    assert r == Trim(s);
    assert t == s[k..] && r == t[..|r|];
    assert r == s[k..k + |r|];
    forall i | k + |r| <= i < |s|
      ensures IsTrimmed(s[i])
    {
      assert s[i] == t[i - k];
    }
    assert CutAt(s, r, k);
  }

  /**
   * `r` is the part of `s` starting at `k`, and every character of `s`
   * before it and after it is one `trim()` removes.
   */
  predicate CutAt(s: string, r: string, k: int) {
    && 0 <= k <= |s| - |r|
    && r == s[k..k + |r|]
    && (forall i | 0 <= i < k :: IsTrimmed(s[i]))
    && (forall i | k + |r| <= i < |s| :: IsTrimmed(s[i]))
  }

  function TrimStart(s: string): (r: string)
    ensures |r| <= |s| && r == s[|s| - |r|..]
    ensures r != [] ==> !IsTrimmed(r[0])
    ensures forall i | 0 <= i < |s| - |r| :: IsTrimmed(s[i])
  {
    if s == [] || !IsTrimmed(s[0]) then s else TrimStart(s[1..])
  }

  function TrimEnd(s: string): (r: string)
    ensures |r| <= |s| && r == s[..|r|]
    ensures r != [] ==> !IsTrimmed(r[|r| - 1])
    ensures forall i | |r| <= i < |s| :: IsTrimmed(s[i])
  {
    if s == [] || !IsTrimmed(s[|s| - 1]) then s else TrimEnd(s[..|s| - 1])
  }

  /** Trimming is idempotent. */
  lemma TrimTwice(s: string)
    ensures Trim(Trim(s)) == Trim(s)
  {
    var r := Trim(s);
    assert TrimStart(r) == r;
    assert TrimEnd(r) == r;
  }

  /** `Character.isWhitespace`: the separators Java treats as blank (no-break spaces excluded). */
  predicate IsJavaWhitespace(c: char) {
    ('\U{9}' <= c <= '\U{D}') || ('\U{1C}' <= c <= ' ')
    || c == '\U{1680}' || ('\U{2000}' <= c <= '\U{2006}') || ('\U{2008}' <= c <= '\U{200A}')
    || c == '\U{2028}' || c == '\U{2029}' || c == '\U{205F}' || c == '\U{3000}'
  }

  /** `String.isBlank()`. */
  predicate IsBlank(s: string) {
    forall i | 0 <= i < |s| :: IsJavaWhitespace(s[i])
  }

  /** A nullable string that is neither null nor blank (`s != null && !s.isBlank()`). */
  predicate HasText(s: Option<string>) {
    s.Some? && !IsBlank(s.value)
  }

  /** A nullable string that is neither null nor empty (`s != null && !s.isEmpty()`). */
  predicate NonEmpty(s: Option<string>) {
    s.Some? && s.value != []
  }

  /** A column declared without a length holds at most 255 characters. */
  const DEFAULT_COLUMN_LENGTH: nat := 255

  /** A nullable string fits a column of `n` characters (null always does). */
  predicate FitsIn(s: Option<string>, n: nat) {
    s.None? || |s.value| <= n
  }

  predicate IsSubstring(sub: string, s: string) {
    exists i :: 0 <= i <= |s| && sub <= s[i..]
  }

  function LowerAscii(c: char): (r: char)
    ensures 'A' <= c <= 'Z' ==> 'a' <= r <= 'z'
    ensures !('A' <= c <= 'Z') ==> r == c
  {
    if 'A' <= c <= 'Z' then (c as int + 32) as char else c
  }

  function UpperAscii(c: char): (r: char)
    ensures 'a' <= c <= 'z' ==> 'A' <= r <= 'Z'
    ensures !('a' <= c <= 'z') ==> r == c
  {
    if 'a' <= c <= 'z' then (c as int - 32) as char else c
  }

  /** `String.toLowerCase()` on the ASCII letters. */
  function ToLower(s: string): (r: string)
    ensures |r| == |s|
    ensures forall i | 0 <= i < |s| :: r[i] == LowerAscii(s[i])
  {
    seq(|s|, i requires 0 <= i < |s| => LowerAscii(s[i]))
  }

  /** `String.toUpperCase()` on the ASCII letters. */
  function ToUpper(s: string): (r: string)
    ensures |r| == |s|
    ensures forall i | 0 <= i < |s| :: r[i] == UpperAscii(s[i])
  {
    seq(|s|, i requires 0 <= i < |s| => UpperAscii(s[i]))
  }

  // ---------------------------------------------------------------------------
  // Decimal text of an `int`, as string concatenation writes it.

  function DigitChar(d: nat): (c: char)
    requires d < 10
    ensures '0' <= c <= '9' && c as int - '0' as int == d
  {
    ('0' as int + d) as char
  }

  predicate IsDigit(c: char) {
    '0' <= c <= '9'
  }

  predicate AllDigits(s: string) {
    forall i | 0 <= i < |s| :: IsDigit(s[i])
  }

  function DigitValue(c: char): (d: nat)
    requires IsDigit(c)
    ensures d < 10
  {
    c as int - '0' as int
  }

  /** The decimal digits of a non-negative number, without leading zeros. */
  function Digits(n: nat): (s: string)
    ensures s != [] && AllDigits(s)
    ensures |s| > 1 ==> s[0] != '0'
    decreases n
  {
    if n < 10 then [DigitChar(n)] else Digits(n / 10) + [DigitChar(n % 10)]
  }

  /** `String.valueOf(int)`: a minus sign for negative numbers, then the digits. */
  function IntToString(n: int): (s: string)
    ensures s != []
  {
    if n < 0 then "-" + Digits(-n) else Digits(n)
  }

  /** The number a string of decimal digits denotes. */
  function DigitsValue(s: string): nat
    requires AllDigits(s)
    decreases |s|
  {
    if s == [] then 0 else DigitsValue(s[..|s| - 1]) * 10 + DigitValue(s[|s| - 1])
  }

  /** A sign followed by digits, or digits alone, read as a number without range check. */
  function SignedValue(s: string): int
    requires s != [] && (AllDigits(s) || (|s| > 1 && (s[0] == '-' || s[0] == '+') && AllDigits(s[1..])))
  {
    if s[0] == '-' then -(DigitsValue(s[1..]) as int)
    else if s[0] == '+' then DigitsValue(s[1..])
    else DigitsValue(s)
  }

  /**
   * `Integer.parseInt` over ASCII digits: an optional '-' or '+' and at least
   * one digit, whose value must fit an `int`.
   */
  function ParseInt(s: string): (r: Option<int>)
    ensures r.Some? ==> InInt32(r.value)
    ensures r.Some? <==> s != [] && (AllDigits(s) || (|s| > 1 && (s[0] == '-' || s[0] == '+') && AllDigits(s[1..])))
                         && InInt32(SignedValue(s))
    ensures r.Some? ==> r.value == SignedValue(s)
  {
    if s != [] && (AllDigits(s) || (|s| > 1 && (s[0] == '-' || s[0] == '+') && AllDigits(s[1..])))
       && InInt32(SignedValue(s))
    then Some(SignedValue(s))
    else None
  }

  lemma {:induction false} DigitsRoundTrip(n: nat)
    ensures DigitsValue(Digits(n)) == n
    decreases n
  {
    if n >= 10 {
      DigitsRoundTrip(n / 10);
      var s := Digits(n);
      assert s[..|s| - 1] == Digits(n / 10);
    }
  }

  /** Reading back the text of an `int` gives the number. */
  lemma IntToStringRoundTrip(n: int)
    requires InInt32(n)
    ensures ParseInt(IntToString(n)) == Some(n)
  {
    if n < 0 {
      DigitsRoundTrip(-n);
      var s := IntToString(n);
      assert s[1..] == Digits(-n);
    } else {
      DigitsRoundTrip(n);
    }
  }

  // ---------------------------------------------------------------------------
  // `LocalDate.parse` (ISO-8601 `uuuu-MM-dd`, strict).

  datatype Date = Date(year: int, month: int, day: int)

  predicate IsLeapYear(y: int) {
    y % 4 == 0 && (y % 100 != 0 || y % 400 == 0)
  }

  function DaysInMonth(y: int, m: int): (n: int)
    requires 1 <= m <= 12
    ensures 28 <= n <= 31
    ensures n == 29 <==> m == 2 && IsLeapYear(y)
  {
    if m == 2 then (if IsLeapYear(y) then 29 else 28)
    else if m == 4 || m == 6 || m == 9 || m == 11 then 30
    else 31
  }

  /** A day that exists in the proleptic Gregorian calendar. */
  predicate ValidDate(d: Date) {
    1 <= d.month <= 12 && 1 <= d.day <= DaysInMonth(d.year, d.month)
  }

  function Pow10(w: nat): (p: nat)
    ensures p >= 1
  {
    if w == 0 then 1 else 10 * Pow10(w - 1)
  }

  /** The last `w` decimal digits of `n`, with leading zeros. */
  function PadDigits(n: nat, w: nat): (s: string)
    ensures |s| == w && AllDigits(s)
  {
    if w == 0 then [] else PadDigits(n / 10, w - 1) + [DigitChar(n % 10)]
  }

  /** Digits padded to a width that holds the number read back as that number. */
  lemma {:induction false} PadDigitsRoundTrip(n: nat, w: nat)
    requires n < Pow10(w)
    ensures DigitsValue(PadDigits(n, w)) == n
  {
    if w > 0 {
      PadDigitsRoundTrip(n / 10, w - 1);
      var s := PadDigits(n, w);
      assert s[..|s| - 1] == PadDigits(n / 10, w - 1);
    }
  }

  /** `w` digits denote less than 10^w. */
  lemma {:induction false} DigitsBelowPow10(s: string)
    requires AllDigits(s)
    ensures DigitsValue(s) < Pow10(|s|)
    decreases |s|
  {
    if s != [] {
      DigitsBelowPow10(s[..|s| - 1]);
    }
  }

  /** A string of digits, padded back to its own width, is itself. */
  lemma {:induction false} DigitsPadBack(s: string)
    requires AllDigits(s)
    ensures PadDigits(DigitsValue(s), |s|) == s
    decreases |s|
  {
    if s != [] {
      var t := s[..|s| - 1];
      DigitsPadBack(t);
      assert s == t + [s[|s| - 1]];
    }
  }

  /** `LocalDate.toString()` for a year from 0 to 9999: `yyyy-MM-dd`. */
  function FormatIsoDate(d: Date): (s: string)
    requires 0 <= d.year && 0 <= d.month && 0 <= d.day
    ensures |s| == 10 && s[4] == '-' && s[7] == '-'
  {
    PadDigits(d.year, 4) + "-" + PadDigits(d.month, 2) + "-" + PadDigits(d.day, 2)
  }

  /**
   * `LocalDate.parse` on a four-digit year: `yyyy-MM-dd` in ASCII digits,
   * naming a day that exists (February 29 only in a leap year); anything
   * else throws.
   */
  function ParseIsoDate(s: string): (r: Option<Date>)
    ensures r.Some? ==> ValidDate(r.value) && 0 <= r.value.year <= 9999
    ensures r.Some? ==> |s| == 10 && s[4] == '-' && s[7] == '-'
  {
    if |s| == 10 && s[4] == '-' && s[7] == '-' && AllDigits(s[..4]) && AllDigits(s[5..7]) && AllDigits(s[8..]) then
      var d := Date(DigitsValue(s[..4]), DigitsValue(s[5..7]), DigitsValue(s[8..]));
      DigitsBelowPow10(s[..4]);
      if ValidDate(d) then Some(d) else None
    else None
  }

  /** Every valid day of the years 0 to 9999 is read back from its own text. */
  lemma DateRoundTrip(d: Date)
    requires ValidDate(d) && 0 <= d.year <= 9999
    ensures ParseIsoDate(FormatIsoDate(d)) == Some(d)
  {
    var s := FormatIsoDate(d);
    assert s[..4] == PadDigits(d.year, 4);
    assert s[5..7] == PadDigits(d.month, 2);
    assert s[8..] == PadDigits(d.day, 2);
    PadDigitsRoundTrip(d.year, 4);
    PadDigitsRoundTrip(d.month, 2);
    PadDigitsRoundTrip(d.day, 2);
  }

  /** A text that parses is exactly the text of the day it names. */
  lemma ParsedDateIsItsText(s: string)
    requires ParseIsoDate(s).Some?
    ensures FormatIsoDate(ParseIsoDate(s).value) == s
  {
    DigitsPadBack(s[..4]);
    DigitsPadBack(s[5..7]);
    DigitsPadBack(s[8..]);
    assert s == s[..4] + "-" + s[5..7] + "-" + s[8..];
  }

  // ---------------------------------------------------------------------------
  // Java `int`.

  const TWO_TO_THE_31: int := 0x8000_0000
  const TWO_TO_THE_32: int := 0x1_0000_0000

  predicate InInt32(x: int) {
    -TWO_TO_THE_31 <= x < TWO_TO_THE_31
  }

  /** Two's-complement wrap-around of Java `int` arithmetic. */
  function Wrap32(x: int): (r: int)
    ensures InInt32(r)
    ensures (r - x) % TWO_TO_THE_32 == 0
    ensures InInt32(x) ==> r == x
  {
    (x + TWO_TO_THE_31) % TWO_TO_THE_32 - TWO_TO_THE_31
  }

  /** A subset is no larger than its superset. */
  lemma SubsetCardinality<T>(a: set<T>, b: set<T>)
    requires a <= b
    ensures |a| <= |b|
  {
    assert b == a + (b - a);
  }
}
