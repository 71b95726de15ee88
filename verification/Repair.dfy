/** The offline repair of lost dead-time exits (hilbin_vs_c.py): what it does to
    the waveform of each leg. Times are exact reals. */
module Repair {
  import opened Legs
  import opened Sorting
  import opened Wrappers

  const ZERO_P := 2
  const ZERO := 6
  const ZERO_N := 4

  /** A dead state held longer than this multiple of the dead time is a loss. */
  const HOLD_TOL := 5.0

  /** The dead time taken when no dead stay can be measured. */
  const DEAD_TIME_FALLBACK := 0.00000052

  datatype Row = Row(t: real, a: int, b: int, c: int) {
    function Of(leg: Leg): int {
      match leg
      case A => a
      case B => b
      case C => c
    }
  }

  datatype Point = Point(t: real, v: int)

  datatype Report = Report(inserted: nat, duplicatesDropped: nat, deadTime: real)

  predicate IsDead(v: int) { v == ZERO_P || v == ZERO_N }

  ghost predicate Sorted(rows: seq<Row>) {
    forall i, j :: 0 <= i <= j < |rows| ==> rows[i].t <= rows[j].t
  }

  // ------------------------------------------------------------ the estimate

  /** The first row of the stay of `leg` that row `k` belongs to. */
  function StayStart(rows: seq<Row>, leg: Leg, k: nat): (s: nat)
    requires k < |rows|
    ensures s <= k
    ensures forall j :: s <= j <= k ==> rows[j].Of(leg) == rows[k].Of(leg)
    ensures s > 0 ==> rows[s - 1].Of(leg) != rows[s].Of(leg)
  {
    if k > 0 && rows[k - 1].Of(leg) == rows[k].Of(leg) then StayStart(rows, leg, k - 1) else k
  }

  /** The durations of the dead stays of a leg that end before row `n`. */
  function DeadStays(rows: seq<Row>, leg: Leg, n: nat): seq<real>
    requires n <= |rows|
  {
    if n < 2 then []
    else if rows[n - 1].Of(leg) != rows[n - 2].Of(leg) && IsDead(rows[n - 2].Of(leg)) then
      DeadStays(rows, leg, n - 1) + [rows[n - 1].t - rows[StayStart(rows, leg, n - 2)].t]
    else DeadStays(rows, leg, n - 1)
  }

  function AllDeadStays(rows: seq<Row>): seq<real> {
    DeadStays(rows, A, |rows|) + DeadStays(rows, B, |rows|) + DeadStays(rows, C, |rows|)
  }

  predicate AtMost(x: real, y: real) { x <= y }

  /** The middle value, or the mean of the two middle values. */
  function Middle(r: seq<real>): real
    requires r != []
  {
    if |r| % 2 == 1 then r[|r| / 2] else (r[|r| / 2 - 1] + r[|r| / 2]) / 2.0
  }

  function Median(s: seq<real>): real
    requires s != []
  {
    Middle(Sort(s, AtMost))
  }

  function Estimate(rows: seq<Row>): real {
    if AllDeadStays(rows) == [] then DEAD_TIME_FALLBACK else Median(AllDeadStays(rows))
  }

  /** The completed dead stays of one leg, in one pass. */
  method MeasureStays(rows: seq<Row>, leg: Leg) returns (stays: seq<real>)
    requires rows != []
    ensures stays == DeadStays(rows, leg, |rows|)
  {
    stays := [];
    var start := 0;
    for e := 1 to |rows|
      invariant start == StayStart(rows, leg, e - 1)
      invariant stays == DeadStays(rows, leg, e)
    {
      if rows[e].Of(leg) != rows[e - 1].Of(leg) {
        if IsDead(rows[start].Of(leg)) {
          stays := stays + [rows[e].t - rows[start].t];
        }
        start := e;
      }
    }
  }

  method EstimateDeadTime(rows: seq<Row>) returns (dead: real)
    ensures dead == Estimate(rows)
  {
    if |rows| < 2 {
      return DEAD_TIME_FALLBACK;
    }
    var a := MeasureStays(rows, A);
    var b := MeasureStays(rows, B);
    var c := MeasureStays(rows, C);
    dead := if a + b + c == [] then DEAD_TIME_FALLBACK else Median(a + b + c);
  }

  ghost predicate AscendingReals(r: seq<real>) {
    forall i, j :: 0 <= i < j < |r| ==> r[i] <= r[j]
  }

  lemma SortedReals(s: seq<real>)
    ensures AscendingReals(Sort(s, AtMost)) && multiset(Sort(s, AtMost)) == multiset(s)
  {
    SortOrders(s, AtMost);
    SortPermutes(s, AtMost);
    var r := Sort(s, AtMost);
    forall i, j | 0 <= i < j < |r|
      ensures r[i] <= r[j]
    {
      assert AtMost(r[i], r[j]);
    }
  }

  lemma SameGreatest(r: seq<real>, s: seq<real>)
    requires AscendingReals(r) && AscendingReals(s) && multiset(r) == multiset(s) && r != [] && s != []
    ensures r[|r| - 1] == s[|s| - 1]
  {
    SameMembers(r, s);
    var x, y := r[|r| - 1], s[|s| - 1];
    assert x in s && y in r;
    var i :| 0 <= i < |r| && r[i] == y;
    var j :| 0 <= j < |s| && s[j] == x;
  }

  /** There is one way to put values in order of size. */
  lemma {:induction false} AscendingRealsUnique(r: seq<real>, s: seq<real>)
    requires AscendingReals(r) && AscendingReals(s) && multiset(r) == multiset(s)
    ensures r == s
  {
    SameSize(r, s);
    if r != [] {
      var m := |r| - 1;
      SameGreatest(r, s);
      AllButLast(r);
      AllButLast(s);
      AscendingRealsUnique(r[..m], s[..m]);
      assert r == r[..m] + [r[m]] && s == s[..m] + [s[m]];
    }
  }

  /** The median is the middle of the values in order of size, or the mean of the two
      in the middle; and so does not depend on the order in which they came. */
  lemma MedianIsMiddle(s: seq<real>, r: seq<real>)
    requires s != [] && AscendingReals(r) && multiset(r) == multiset(s)
    ensures |r| == |s|
    ensures Median(s) == if |s| % 2 == 1 then r[|s| / 2] else (r[|s| / 2 - 1] + r[|s| / 2]) / 2.0
  {
    SortedReals(s);
    AscendingRealsUnique(r, Sort(s, AtMost));
  }

  lemma MedianIgnoresOrder(s: seq<real>, t: seq<real>)
    requires s != [] && multiset(s) == multiset(t)
    ensures t != [] && Median(s) == Median(t)
  {
    SameSize(s, t);
    SortedReals(t);
    MedianIsMiddle(s, Sort(t, AtMost));
    MedianIsMiddle(t, Sort(t, AtMost));
  }

  // ------------------------------------------------------------ what is measured

  /** A leg keeps one dead level, two or four, from row `i` to the row before `j`,
      and no longer. */
  ghost predicate CompletedStay(rows: seq<Row>, leg: Leg, i: int, j: int) {
    && 0 <= i < j < |rows| && (rows[i].Of(leg) == 2 || rows[i].Of(leg) == 4)
    && (forall k :: i <= k < j ==> rows[k].Of(leg) == rows[i].Of(leg))
    && rows[j].Of(leg) != rows[i].Of(leg) && (i > 0 ==> rows[i - 1].Of(leg) != rows[i].Of(leg))
  }

  ghost predicate EndsStay(rows: seq<Row>, leg: Leg, j: int) {
    exists i :: CompletedStay(rows, leg, i, j)
  }

  /** Where the measured stays end, in order. */
  function StayEnds(rows: seq<Row>, leg: Leg, n: nat): seq<nat>
    requires n <= |rows|
  {
    if n < 2 then []
    else if rows[n - 1].Of(leg) != rows[n - 2].Of(leg) && IsDead(rows[n - 2].Of(leg)) then
      StayEnds(rows, leg, n - 1) + [n - 1]
    else StayEnds(rows, leg, n - 1)
  }

  lemma LastEndsStay(rows: seq<Row>, leg: Leg, n: nat)
    requires 2 <= n <= |rows|
    ensures EndsStay(rows, leg, n - 1)
       <==> rows[n - 1].Of(leg) != rows[n - 2].Of(leg) && IsDead(rows[n - 2].Of(leg))
    ensures EndsStay(rows, leg, n - 1) ==> CompletedStay(rows, leg, StayStart(rows, leg, n - 2), n - 1)
  {
    var s := StayStart(rows, leg, n - 2);
    assert rows[s].Of(leg) == rows[n - 2].Of(leg);
    if rows[n - 1].Of(leg) != rows[n - 2].Of(leg) && IsDead(rows[n - 2].Of(leg)) {
      assert CompletedStay(rows, leg, s, n - 1);
    }
    if EndsStay(rows, leg, n - 1) {
      var i :| CompletedStay(rows, leg, i, n - 1);
      assert rows[n - 2].Of(leg) == rows[i].Of(leg);
    }
  }

  ghost predicate Measured(rows: seq<Row>, leg: Leg, j: int, d: real) {
    exists i :: CompletedStay(rows, leg, i, j) && d == rows[j].t - rows[i].t
  }

  ghost predicate AllMeasured(rows: seq<Row>, leg: Leg, ends: seq<nat>, stays: seq<real>) {
    |stays| == |ends| && forall k :: 0 <= k < |ends| ==> Measured(rows, leg, ends[k], stays[k])
  }

  ghost predicate InOrder(ends: seq<nat>) { forall k, m :: 0 <= k < m < |ends| ==> ends[k] < ends[m] }

  /** Every end of a completed dead stay before row `n`, and no other. */
  ghost predicate AllEnds(ends: seq<nat>, rows: seq<Row>, leg: Leg, n: nat) {
    forall j :: j in ends <==> j < n && EndsStay(rows, leg, j)
  }

  lemma InOrderOneMore(ends: seq<nat>, n: nat)
    requires InOrder(ends) && forall j :: j in ends ==> j < n
    ensures InOrder(ends + [n])
  {
    assert forall k :: 0 <= k < |ends| ==> ends[k] in ends;
  }

  lemma AllEndsOneMore(ends: seq<nat>, rows: seq<Row>, leg: Leg, n: nat)
    requires 0 < n && AllEnds(ends, rows, leg, n - 1) && EndsStay(rows, leg, n - 1)
    ensures AllEnds(ends + [n - 1], rows, leg, n)
  {
    forall j: nat
      ensures j in ends + [n - 1] <==> j < n && EndsStay(rows, leg, j)
    {
      assert j in ends <==> j < n - 1 && EndsStay(rows, leg, j);
    }
  }

  lemma AllEndsNoMore(ends: seq<nat>, rows: seq<Row>, leg: Leg, n: nat)
    requires 0 < n && AllEnds(ends, rows, leg, n - 1) && !EndsStay(rows, leg, n - 1)
    ensures AllEnds(ends, rows, leg, n)
  {}

  lemma MeasuredOneMore(rows: seq<Row>, leg: Leg, ends: seq<nat>, stays: seq<real>, j: nat, d: real)
    requires AllMeasured(rows, leg, ends, stays) && Measured(rows, leg, j, d)
    ensures AllMeasured(rows, leg, ends + [j], stays + [d])
  {}

  /** The ends are those of all completed dead stays before row `n`, each once, and
      the durations measured are theirs, from the first row of the stay. */
  ghost predicate StaysMatch(ends: seq<nat>, stays: seq<real>, rows: seq<Row>, leg: Leg, n: nat) {
    AllEnds(ends, rows, leg, n) && InOrder(ends) && AllMeasured(rows, leg, ends, stays)
  }

  lemma MatchOneMore(ends: seq<nat>, stays: seq<real>, rows: seq<Row>, leg: Leg, n: nat, d: real)
    requires 0 < n && StaysMatch(ends, stays, rows, leg, n - 1)
    requires EndsStay(rows, leg, n - 1) && Measured(rows, leg, n - 1, d)
    ensures StaysMatch(ends + [n - 1], stays + [d], rows, leg, n)
  {
    AllEndsOneMore(ends, rows, leg, n);
    EndsBefore(ends, rows, leg, n);
    InOrderOneMore(ends, n - 1);
    MeasuredOneMore(rows, leg, ends, stays, n - 1, d);
  }

  lemma EndsBefore(ends: seq<nat>, rows: seq<Row>, leg: Leg, n: nat)
    requires 0 < n && AllEnds(ends, rows, leg, n - 1)
    ensures forall j :: j in ends ==> j < n - 1
  {}

  lemma MatchNoMore(ends: seq<nat>, stays: seq<real>, rows: seq<Row>, leg: Leg, n: nat)
    requires 0 < n && StaysMatch(ends, stays, rows, leg, n - 1) && !EndsStay(rows, leg, n - 1)
    ensures StaysMatch(ends, stays, rows, leg, n)
  {
    AllEndsNoMore(ends, rows, leg, n);
  }

  /** Row `n - 1` may end one more stay. */
  lemma LastStay(rows: seq<Row>, leg: Leg, n: nat) returns (last: bool, d: real)
    requires 2 <= n <= |rows|
    ensures last <==> EndsStay(rows, leg, n - 1)
    ensures StayEnds(rows, leg, n) == StayEnds(rows, leg, n - 1) + (if last then [n - 1] else [])
    ensures DeadStays(rows, leg, n) == DeadStays(rows, leg, n - 1) + (if last then [d] else [])
    ensures last ==> Measured(rows, leg, n - 1, d)
  {
    LastEndsStay(rows, leg, n);
    last := rows[n - 1].Of(leg) != rows[n - 2].Of(leg) && IsDead(rows[n - 2].Of(leg));
    d := rows[n - 1].t - rows[StayStart(rows, leg, n - 2)].t;
  }

  lemma {:induction false} StaysExactly(rows: seq<Row>, leg: Leg, n: nat)
    requires n <= |rows|
    ensures StaysMatch(StayEnds(rows, leg, n), DeadStays(rows, leg, n), rows, leg, n)
  {
    if n < 2 {
      NoEndsYet(rows, leg, n);
    } else {
      var ends, stays := StayEnds(rows, leg, n - 1), DeadStays(rows, leg, n - 1);
      StaysExactly(rows, leg, n - 1);
      var last, d := LastStay(rows, leg, n);
      if last {
        MatchOneMore(ends, stays, rows, leg, n, d);
      } else {
        MatchNoMore(ends, stays, rows, leg, n);
        assert ends + [] == ends && stays + [] == stays;
      }
    }
  }

  lemma NoEndsYet(rows: seq<Row>, leg: Leg, n: nat)
    requires n < 2 && n <= |rows|
    ensures StaysMatch([], [], rows, leg, n)
    ensures StayEnds(rows, leg, n) == [] && DeadStays(rows, leg, n) == []
  {}

  // ------------------------------------------------------------ all legs

  /** The stays of every leg are measured. */
  lemma EveryLegIsMeasured(rows: seq<Row>, leg: Leg, i: int, j: int)
    requires CompletedStay(rows, leg, i, j)
    ensures rows[j].t - rows[i].t in AllDeadStays(rows)
  {
    var n := |rows|;
    var ends, stays := StayEnds(rows, leg, n), DeadStays(rows, leg, n);
    StaysExactly(rows, leg, n);
    assert EndsStay(rows, leg, j);
    assert j in ends;
    var k :| 0 <= k < |ends| && ends[k] == j;
    assert Measured(rows, leg, ends[k], stays[k]);
    OneStart(rows, leg, i, j, stays[k]);
    assert stays[k] in stays;
    StaysAreAll(rows, leg);
  }

  lemma OneStart(rows: seq<Row>, leg: Leg, i: int, j: int, d: real)
    requires CompletedStay(rows, leg, i, j) && Measured(rows, leg, j, d)
    ensures d == rows[j].t - rows[i].t
  {
    var k :| CompletedStay(rows, leg, k, j) && d == rows[j].t - rows[k].t;
    if k < i { assert false; }
    if i < k { assert false; }
  }

  /** As many durations as stays. */
  lemma StaysAreAll(rows: seq<Row>, leg: Leg)
    ensures forall d :: d in DeadStays(rows, leg, |rows|) ==> d in AllDeadStays(rows)
    ensures |AllDeadStays(rows)|
         == |StayEnds(rows, A, |rows|)| + |StayEnds(rows, B, |rows|)| + |StayEnds(rows, C, |rows|)|
  {
    StaysExactly(rows, A, |rows|);
    StaysExactly(rows, B, |rows|);
    StaysExactly(rows, C, |rows|);
  }

  /** The leg that stands in the place of another one. */
  function Next(leg: Leg): Leg {
    match leg
    case A => B
    case B => C
    case C => A
  }

  /** The same stream with the legs renamed. */
  predicate Renamed(turned: seq<Row>, rows: seq<Row>) {
    |turned| == |rows|
    && forall i :: 0 <= i < |rows| ==> turned[i] == Row(rows[i].t, rows[i].b, rows[i].c, rows[i].a)
  }

  lemma RenamedLevel(turned: seq<Row>, rows: seq<Row>, leg: Leg, i: nat)
    requires Renamed(turned, rows) && i < |rows|
    ensures turned[i].Of(leg) == rows[i].Of(Next(leg)) && turned[i].t == rows[i].t
  {}

  lemma {:induction false} RenamedStart(turned: seq<Row>, rows: seq<Row>, leg: Leg, k: nat)
    requires Renamed(turned, rows) && k < |rows|
    ensures StayStart(turned, leg, k) == StayStart(rows, Next(leg), k)
  {
    RenamedLevel(turned, rows, leg, k);
    if k > 0 {
      RenamedLevel(turned, rows, leg, k - 1);
      RenamedStart(turned, rows, leg, k - 1);
    }
  }

  lemma {:induction false} RenamedStays(turned: seq<Row>, rows: seq<Row>, leg: Leg, n: nat)
    requires Renamed(turned, rows) && n <= |rows|
    ensures DeadStays(turned, leg, n) == DeadStays(rows, Next(leg), n)
  {
    if n >= 2 {
      RenamedStays(turned, rows, leg, n - 1);
      RenamedLevel(turned, rows, leg, n - 1);
      RenamedLevel(turned, rows, leg, n - 2);
      RenamedStart(turned, rows, leg, n - 2);
      RenamedLevel(turned, rows, leg, StayStart(rows, Next(leg), n - 2));
    }
  }

  /** No leg counts more than another: renaming them does not change the estimate. */
  lemma EstimateIsFair(turned: seq<Row>, rows: seq<Row>)
    requires Renamed(turned, rows)
    ensures Estimate(turned) == Estimate(rows)
  {
    RenamedStays(turned, rows, A, |rows|);
    RenamedStays(turned, rows, B, |rows|);
    RenamedStays(turned, rows, C, |rows|);
    assert multiset(AllDeadStays(turned)) == multiset(AllDeadStays(rows));
    SameSize(AllDeadStays(turned), AllDeadStays(rows));
    if AllDeadStays(rows) != [] { MedianIgnoresOrder(AllDeadStays(rows), AllDeadStays(turned)); }
  }

  // ------------------------------------------------------------ the median


  function Count(s: seq<real>, good: real -> bool): nat {
    if s == [] then 0 else Count(s[..|s| - 1], good) + (if good(s[|s| - 1]) then 1 else 0)
  }

  lemma {:induction false} CountOfInsert(s: seq<real>, x: real, good: real -> bool)
    ensures Count(Insert(s, x, AtMost), good) == Count(s, good) + (if good(x) then 1 else 0)
  {
    if s != [] && !AtMost(s[|s| - 1], x) {
      var n := |s| - 1;
      var r := Insert(s[..n], x, AtMost);
      CountOfInsert(s[..n], x, good);
      assert (r + [s[n]])[..|r|] == r;
    } else {
      assert (s + [x])[..|s|] == s;
    }
  }

  lemma {:induction false} SortKeepsCount(s: seq<real>, good: real -> bool)
    ensures Count(Sort(s, AtMost), good) == Count(s, good)
  {
    if s != [] {
      SortKeepsCount(s[..|s| - 1], good);
      CountOfInsert(Sort(s[..|s| - 1], AtMost), s[|s| - 1], good);
    }
  }

  /** Nothing good among the first `k` leaves at most the rest. */
  lemma {:induction false} CountBehind(r: seq<real>, k: nat, good: real -> bool)
    requires k <= |r| && forall i :: 0 <= i < k ==> !good(r[i])
    ensures Count(r, good) <= |r| - k
  {
    if |r| > k { CountBehind(r[..|r| - 1], k, good); } else if r != [] { CountBehind(r[..|r| - 1], k - 1, good); }
  }

  lemma {:induction false} CountAhead(r: seq<real>, k: nat, good: real -> bool)
    requires k <= |r| && forall i :: k <= i < |r| ==> !good(r[i])
    ensures Count(r, good) <= k
  {
    if |r| > k { CountAhead(r[..|r| - 1], k, good); } else { CountBehind(r, 0, good); }
  }

  lemma {:induction false} CountFirst(r: seq<real>, k: nat, good: real -> bool)
    requires k <= |r| && forall i :: 0 <= i < k ==> good(r[i])
    ensures Count(r, good) >= k
  {
    if r != [] { CountFirst(r[..|r| - 1], if k == |r| then k - 1 else k, good); }
  }

  lemma {:induction false} CountLast(r: seq<real>, k: nat, good: real -> bool)
    requires k <= |r| && forall i :: k <= i < |r| ==> good(r[i])
    ensures Count(r, good) >= |r| - k
  {
    if |r| > k { CountLast(r[..|r| - 1], k, good); }
  }

  lemma MeanBetween(a: real, b: real, m: real)
    requires a <= b && m == (a + b) / 2.0
    ensures a <= m <= b
  {}

  lemma MiddleBetween(r: seq<real>, low: nat, high: nat)
    requires AscendingReals(r) && r != [] && low == (|r| - 1) / 2 && high == |r| / 2
    ensures r[low] <= Middle(r) <= r[high]
  {
    if |r| % 2 == 0 {
      assert high == low + 1;
      assert r[low] <= r[high];
      MeanBetween(r[low], r[high], Middle(r));
    } else {
      assert high == low;
    }
  }

  /** The median lies between the two values in the middle. */
  lemma MedianBetween(s: seq<real>, low: nat, high: nat)
    requires s != [] && low == (|s| - 1) / 2 && high == |s| / 2
    ensures Sort(s, AtMost)[low] <= Median(s) <= Sort(s, AtMost)[high]
  {
    SortedReals(s);
    MiddleBetween(Sort(s, AtMost), low, high);
  }

  lemma CountUpTo(r: seq<real>, k: nat, m: real, below: real -> bool)
    requires AscendingReals(r) && k < |r| && r[k] <= m && forall x :: x <= m ==> below(x)
    ensures Count(r, below) >= k + 1
  {
    forall i | 0 <= i < k + 1
      ensures below(r[i])
    {
      assert i < k ==> r[i] <= r[k];
    }
    CountFirst(r, k + 1, below);
  }

  lemma CountFrom(r: seq<real>, k: nat, m: real, above: real -> bool)
    requires AscendingReals(r) && k < |r| && m <= r[k] && forall x :: x >= m ==> above(x)
    ensures Count(r, above) >= |r| - k
  {
    forall i | k <= i < |r|
      ensures above(r[i])
    {
      assert i > k ==> r[k] <= r[i];
    }
    CountLast(r, k, above);
  }

  /** At least half of the values are at most the median, and at least half are at
      least it. */
  lemma MedianHalves(s: seq<real>, below: real -> bool, above: real -> bool)
    requires s != [] && forall x :: (below(x) <==> x <= Median(s)) && (above(x) <==> x >= Median(s))
    ensures 2 * Count(s, below) >= |s| && 2 * Count(s, above) >= |s|
  {
    var r, low, high := Sort(s, AtMost), (|s| - 1) / 2, |s| / 2;
    SortedReals(s);
    SortKeepsCount(s, below);
    SortKeepsCount(s, above);
    MedianBetween(s, low, high);
    CountUpTo(r, low, Median(s), below);
    CountFrom(r, high, Median(s), above);
  }

  lemma MiddleIsWithin(r: seq<real>, k: nat, low: real, high: real, good: real -> bool)
    requires AscendingReals(r) && k < |r| && |r| - 1 <= 2 * k + 1 <= |r| + 1
    requires (forall x :: good(x) ==> low <= x <= high) && 2 * Count(r, good) > |r|
    ensures low <= r[k] <= high
  {
    if r[k] < low {
      forall i | 0 <= i < k + 1
        ensures !good(r[i])
      {
        assert i < k ==> r[i] <= r[k];
      }
      CountBehind(r, k + 1, good);
    }
    if r[k] > high {
      forall i | k <= i < |r|
        ensures !good(r[i])
      {
        assert i > k ==> r[k] <= r[i];
      }
      CountAhead(r, k, good);
    }
  }

  /** The median is robust: as long as fewer than half of the values are bad, however
      far off, it lies in the range of the good ones. */
  lemma MedianIsRobust(s: seq<real>, low: real, high: real, good: real -> bool)
    requires (forall x :: good(x) ==> low <= x <= high) && 2 * Count(s, good) > |s|
    ensures s != [] && low <= Median(s) <= high
  {
    var r, i, j := Sort(s, AtMost), (|s| - 1) / 2, |s| / 2;
    SortedReals(s);
    SortKeepsCount(s, good);
    CountBehind(r, 0, good);
    MedianBetween(s, i, j);
    MiddleIsWithin(r, i, low, high, good);
    MiddleIsWithin(r, j, low, high, good);
  }

  /** So is the estimate: while fewer than half of the measured dead stays are
      corrupted, it stays in the range of the good ones. */
  lemma EstimateIsRobust(rows: seq<Row>, low: real, high: real, good: real -> bool)
    requires (forall x :: good(x) ==> low <= x <= high)
    requires 2 * Count(AllDeadStays(rows), good) > |AllDeadStays(rows)|
    ensures low <= Estimate(rows) <= high
  {
    MedianIsRobust(AllDeadStays(rows), low, high, good);
  }

  lemma MedianOfEqual(s: seq<real>, d: real)
    requires s != [] && forall x :: x in s ==> x == d
    ensures Median(s) == d
  {
    var r := Sort(s, AtMost);
    SortPermutes(s, AtMost);
    SameMembers(r, s);
    MedianBetween(s, (|s| - 1) / 2, |s| / 2);
    assert r[(|s| - 1) / 2] in r && r[|s| / 2] in r;
  }

  // ------------------------------------------------------------ the repair

  /** Drops every row identical to the one before it. */
  function Dedup(rows: seq<Row>): (kept: seq<Row>)
    ensures |kept| <= |rows|
    ensures rows != [] ==> kept != [] && kept[|kept| - 1] == rows[|rows| - 1]
  {
    var n := |rows|;
    if n == 0 then []
    else if n >= 2 && rows[n - 1] == rows[n - 2] then Dedup(rows[..n - 1])
    else Dedup(rows[..n - 1]) + [rows[n - 1]]
  }

  predicate Overlong(rows: seq<Row>, leg: Leg, i: int, dead: real) {
    && 0 <= i < |rows| - 1
    && IsDead(rows[i].Of(leg))
    && rows[i + 1].t - rows[i].t > dead * HOLD_TOL
  }

  /** The exits to put back for one leg, from the first `n` rows. */
  function Exits(rows: seq<Row>, leg: Leg, dead: real, n: nat): seq<Point>
    requires n <= |rows|
  {
    if n == 0 then []
    else if Overlong(rows, leg, n - 1, dead) then
      Exits(rows, leg, dead, n - 1) + [Point(rows[n - 1].t + dead, ZERO)]
    else Exits(rows, leg, dead, n - 1)
  }

  function Points(rows: seq<Row>, leg: Leg): (ps: seq<Point>)
    ensures |ps| == |rows|
    ensures forall i :: 0 <= i < |rows| ==> ps[i] == Point(rows[i].t, rows[i].Of(leg))
  {
    seq(|rows|, i requires 0 <= i < |rows| => Point(rows[i].t, rows[i].Of(leg)))
  }

  predicate NotAfter(p: Point, q: Point) { p.t <= q.t }

  function StableSort(ps: seq<Point>): (r: seq<Point>)
    ensures |r| == |ps|
  {
    Sort(ps, NotAfter)
  }

  /** How many elements of a sorted sequence are not later than `x`. */
  function SearchRight(s: seq<Point>, x: real): (k: nat)
    ensures k <= |s|
  {
    if s == [] then 0
    else if s[|s| - 1].t <= x then |s|
    else SearchRight(s[..|s| - 1], x)
  }

  /** The level of a leg at time `x`, read from its sorted points. */
  function Sample(s: seq<Point>, x: real): int
    requires s != []
  {
    var k := SearchRight(s, x) - 1;
    s[if k < 0 then 0 else k].v
  }

  function InsertTime(s: seq<real>, x: real): seq<real> {
    if s == [] || s[|s| - 1] < x then s + [x]
    else if s[|s| - 1] == x then s
    else InsertTime(s[..|s| - 1], x) + [s[|s| - 1]]
  }

  /** The distinct times of some points, ascending. */
  function UniqueTimes(ps: seq<Point>): seq<real> {
    if ps == [] then [] else InsertTime(UniqueTimes(ps[..|ps| - 1]), ps[|ps| - 1].t)
  }

  /** All points of one leg: its rows, then the exits put back. */
  function AllPoints(work: seq<Row>, leg: Leg, dead: real): (ps: seq<Point>)
    ensures |work| <= |ps| && ps[..|work|] == Points(work, leg)
  {
    Points(work, leg) + Exits(work, leg, dead, |work|)
  }

  /** Every point of every leg, as the union of instants collects them. */
  function Collected(work: seq<Row>, dead: real): seq<Point> {
    Points(work, A) + Exits(work, A, dead, |work|)
    + Exits(work, B, dead, |work|) + Exits(work, C, dead, |work|)
  }

  function UnionTimes(work: seq<Row>, dead: real): seq<real> {
    UniqueTimes(Collected(work, dead))
  }

  /** The three legs sampled at one instant. */
  function ResampledRow(work: seq<Row>, dead: real, x: real): Row
    requires work != []
  {
    Row(x, Resample(work, A, dead, x), Resample(work, B, dead, x), Resample(work, C, dead, x))
  }

  function Resample(work: seq<Row>, leg: Leg, dead: real, x: real): int
    requires work != []
  {
    Sample(StableSort(AllPoints(work, leg, dead)), x)
  }

  function Resampled(work: seq<Row>, dead: real): (out: seq<Row>)
    requires work != []
    ensures |out| == |UnionTimes(work, dead)|
    ensures forall j :: 0 <= j < |out| ==> out[j] == ResampledRow(work, dead, UnionTimes(work, dead)[j])
  {
    var times := UnionTimes(work, dead);
    seq(|times|, j requires 0 <= j < |times| => ResampledRow(work, dead, times[j]))
  }

  function Inserted(work: seq<Row>, dead: real): nat {
    |Exits(work, A, dead, |work|)| + |Exits(work, B, dead, |work|)| + |Exits(work, C, dead, |work|)|
  }

  /** The repaired stream for a given dead time. */
  function Repaired(rows: seq<Row>, dead: real): seq<Row> {
    if |rows| < 2 then rows
    else
      var work := Dedup(rows);
      if Inserted(work, dead) == 0 then work else Resampled(work, dead)
  }

  /** The dead time the repair works with: the caller's, or the estimate. */
  function DeadTimeFor(work: seq<Row>, given: Option<real>): real {
    match given
    case Some(d) => d
    case None => Estimate(work)
  }

  /** The forward scan of one leg. */
  method LostExits(work: seq<Row>, leg: Leg, dead: real) returns (exits: seq<Point>)
    requires work != []
    ensures exits == Exits(work, leg, dead, |work|)
  {
    exits := [];
    var limit := dead * HOLD_TOL;
    for i := 0 to |work| - 1
      invariant exits == Exits(work, leg, dead, i)
    {
      if IsDead(work[i].Of(leg)) && work[i + 1].t - work[i].t > limit {
        exits := exits + [Point(work[i].t + dead, ZERO)];
      }
    }
    assert !Overlong(work, leg, |work| - 1, dead);
  }

  /** Rows equal to the one before them are phantom re-reads. */
  method DropRepeats(rows: seq<Row>) returns (work: seq<Row>)
    ensures work == Dedup(rows)
  {
    work := [];
    for i := 0 to |rows|
      invariant work == Dedup(rows[..i])
    {
      assert rows[..i + 1][..i] == rows[..i];
      if i == 0 || rows[i] != rows[i - 1] {
        work := work + [rows[i]];
      }
    }
    assert rows[..|rows|] == rows;
  }

  /** The routine itself: duplicates out, then a forward scan per leg. */
  method RepairDeadTimeHolds(rows: seq<Row>, given: Option<real>) returns (out: seq<Row>, report: Report)
    ensures var dead := DeadTimeFor(Dedup(rows), given);
      && out == Repaired(rows, dead)
      && report == if |rows| < 2 then Report(0, 0, 0.0)
                   else Report(Inserted(Dedup(rows), dead), |rows| - |Dedup(rows)|, dead)
  {
    if |rows| < 2 {
      return rows, Report(0, 0, 0.0);
    }
    var work := DropRepeats(rows);
    var dead: real;
    match given {
      case Some(d) => dead := d;
      case None => dead := EstimateDeadTime(work);
    }
    var a := LostExits(work, A, dead);
    var b := LostExits(work, B, dead);
    var c := LostExits(work, C, dead);
    var inserted := |a| + |b| + |c|;
    report := Report(inserted, |rows| - |work|, dead);
    out := if inserted == 0 then work else Resampled(work, dead);
  }

  // ------------------------------------------------------------ waveforms

  function Pick(best: Option<Point>, p: Point, x: real): Option<Point> {
    if p.t <= x && (best.None? || best.value.t <= p.t) then Some(p) else best
  }

  /** The point that sets the level at time `x`: the latest one not after `x`,
      the last one among equals. */
  function Held(ps: seq<Point>, x: real): Option<Point> {
    if ps == [] then None else Pick(Held(ps[..|ps| - 1], x), ps[|ps| - 1], x)
  }

  function Level(h: Option<Point>): Option<int> {
    match h
    case None => None
    case Some(p) => Some(p.v)
  }

  /** A leg of a stream read as a right-continuous step function. */
  function Wave(rows: seq<Row>, leg: Leg, x: real): Option<int> {
    Level(Held(Points(rows, leg), x))
  }

  ghost predicate SortedPoints(s: seq<Point>) {
    forall i, j :: 0 <= i <= j < |s| ==> s[i].t <= s[j].t
  }

  lemma {:induction false} HeldMeans(ps: seq<Point>, x: real)
    ensures var h := Held(ps, x);
      && (h.Some? ==> h.value in ps && h.value.t <= x)
      && forall p :: p in ps && p.t <= x ==> h.Some? && p.t <= h.value.t
  {
    if ps != [] { HeldMeans(ps[..|ps| - 1], x); }
  }

  /** In a sorted sequence the last point not after `x` is the one held. */
  lemma {:induction false} HeldInSorted(s: seq<Point>, x: real)
    requires SortedPoints(s)
    ensures var k := SearchRight(s, x);
      && (forall i :: 0 <= i < |s| ==> (i < k <==> s[i].t <= x))
      && Held(s, x) == if k == 0 then None else Some(s[k - 1])
  {
    if s != [] {
      HeldInSorted(s[..|s| - 1], x);
      HeldMeans(s[..|s| - 1], x);
    }
  }

  lemma HeldOfAppend(s: seq<Point>, p: Point, x: real)
    ensures Held(s + [p], x) == Pick(Held(s, x), p, x)
  {
    assert (s + [p])[..|s|] == s;
  }

  lemma PicksCommute(h: Option<Point>, p: Point, last: Point, x: real)
    requires p.t < last.t && (h.Some? ==> h.value.t <= last.t)
    ensures Pick(Pick(h, p, x), last, x) == Pick(Pick(h, last, x), p, x)
  {}

  lemma {:induction false} HeldAfterInsert(s: seq<Point>, p: Point, x: real)
    requires SortedPoints(s)
    ensures Held(Insert(s, p, NotAfter), x) == Pick(Held(s, x), p, x)
  {
    if s != [] && s[|s| - 1].t > p.t {
      var n := |s| - 1;
      HeldAfterInsert(s[..n], p, x);
      HeldMeans(s[..n], x);
      HeldOfAppend(Insert(s[..n], p, NotAfter), s[n], x);
      PicksCommute(Held(s[..n], x), p, s[n], x);
    } else {
      HeldOfAppend(s, p, x);
    }
  }

  lemma SortSorts(ps: seq<Point>)
    ensures SortedPoints(StableSort(ps))
  {
    SortOrders(ps, NotAfter);
    var r := Sort(ps, NotAfter);
    forall i, j | 0 <= i < j < |r|
      ensures r[i].t <= r[j].t
    {
      assert NotAfter(r[i], r[j]);
    }
  }

  /** Sorting does not change which point is held at any time. */
  lemma {:induction false} HeldAfterSort(ps: seq<Point>, x: real)
    ensures SortedPoints(StableSort(ps))
    ensures Held(StableSort(ps), x) == Held(ps, x)
  {
    SortSorts(ps);
    if ps != [] {
      var n := |ps| - 1;
      HeldAfterSort(ps[..n], x);
      HeldAfterInsert(StableSort(ps[..n]), ps[n], x);
    }
  }

  /** What is sampled at `x` is the level held at `x`. */
  lemma SampleIsHeld(work: seq<Row>, leg: Leg, dead: real, x: real)
    requires work != [] && work[0].t <= x
    ensures Held(AllPoints(work, leg, dead), x) != None
    ensures Resample(work, leg, dead, x) == Held(AllPoints(work, leg, dead), x).value.v
  {
    var ps := AllPoints(work, leg, dead);
    HeldAfterSort(ps, x);
    HeldInSorted(StableSort(ps), x);
    HeldMeans(ps, x);
    assert ps[..|work|][0] == Points(work, leg)[0];
    assert ps[0] in ps && ps[0].t <= x;
  }

  /** Where no point lies the level stays. */
  lemma {:induction false} HeldStays(ps: seq<Point>, x: real, y: real)
    requires x <= y
    requires forall p :: p in ps && p.t <= y ==> p.t <= x
    ensures Held(ps, x) == Held(ps, y)
  {
    if ps != [] { HeldStays(ps[..|ps| - 1], x, y); }
  }

  // ------------------------------------------------------------ one leg

  /** `x` lies in the part of an over-long dead row that the repair takes to be
      a lost exit. */
  ghost predicate InLostExit(rows: seq<Row>, leg: Leg, dead: real, x: real) {
    exists i :: Overlong(rows, leg, i, dead) && rows[i].t + dead <= x < rows[i + 1].t
  }

  ghost predicate InLostExitBefore(rows: seq<Row>, leg: Leg, dead: real, x: real, n: nat)
    requires n <= |rows|
  {
    exists i :: i < n && Overlong(rows, leg, i, dead) && rows[i].t + dead <= x < rows[i + 1].t
  }

  lemma PointsSorted(rows: seq<Row>, leg: Leg)
    requires Sorted(rows)
    ensures SortedPoints(Points(rows, leg))
  {}

  /** Where `x` is past row `k`, no earlier row's lost exit is in question. */
  lemma OnlyCurrentRow(rows: seq<Row>, leg: Leg, dead: real, x: real, k: nat)
    requires Sorted(rows) && k < |rows| && rows[k].t <= x
    ensures !InLostExitBefore(rows, leg, dead, x, k)
  {}

  /** The exit of row `k` is held from its own time to the next row, and nowhere
      else. */
  lemma OneExit(rows: seq<Row>, leg: Leg, dead: real, x: real, k: nat, h: Option<Point>)
    requires Sorted(rows) && dead >= 0.0 && Overlong(rows, leg, k, dead)
    requires rows[k].t <= x ==> h == Held(Points(rows, leg), x)
    ensures var e := Point(rows[k].t + dead, ZERO);
            Pick(h, e, x) == if e.t <= x < rows[k + 1].t then Some(e) else h
  {
    if rows[k].t <= x {
      var ps := Points(rows, leg);
      PointsSorted(rows, leg);
      HeldInSorted(ps, x);
      HeldMeans(ps, x);
      assert ps[k] in ps && ps[k + 1] in ps;
    }
  }

  /** The level with the exits of the first `n` rows put back. */
  ghost predicate ExitsSetLevel(rows: seq<Row>, leg: Leg, dead: real, x: real, n: nat)
    requires n <= |rows|
  {
    var h := Held(Points(rows, leg) + Exits(rows, leg, dead, n), x);
    if InLostExitBefore(rows, leg, dead, x, n) then h.Some? && h.value.v == ZERO
    else h == Held(Points(rows, leg), x)
  }

  lemma OneMoreExit(rows: seq<Row>, leg: Leg, dead: real, x: real, k: nat)
    requires Sorted(rows) && dead >= 0.0 && k < |rows|
    requires ExitsSetLevel(rows, leg, dead, x, k) && Overlong(rows, leg, k, dead)
    ensures ExitsSetLevel(rows, leg, dead, x, k + 1)
  {
    var e := Point(rows[k].t + dead, ZERO);
    var before := Points(rows, leg) + Exits(rows, leg, dead, k);
    assert Points(rows, leg) + Exits(rows, leg, dead, k + 1) == before + [e];
    if rows[k].t <= x {
      OnlyCurrentRow(rows, leg, dead, x, k);
    }
    HeldOfAppend(before, e, x);
    OneExit(rows, leg, dead, x, k, Held(before, x));
  }

  lemma NoExitYet(rows: seq<Row>, leg: Leg, dead: real, x: real)
    ensures ExitsSetLevel(rows, leg, dead, x, 0)
  {
    assert Points(rows, leg) + Exits(rows, leg, dead, 0) == Points(rows, leg);
  }

  lemma NoMoreExit(rows: seq<Row>, leg: Leg, dead: real, x: real, k: nat)
    requires k < |rows| && !Overlong(rows, leg, k, dead)
    requires ExitsSetLevel(rows, leg, dead, x, k)
    ensures ExitsSetLevel(rows, leg, dead, x, k + 1)
  {
    assert Exits(rows, leg, dead, k + 1) == Exits(rows, leg, dead, k);
    assert InLostExitBefore(rows, leg, dead, x, k + 1) <==> InLostExitBefore(rows, leg, dead, x, k);
  }

  lemma ExitStep(rows: seq<Row>, leg: Leg, dead: real, x: real, k: nat)
    requires Sorted(rows) && dead >= 0.0 && k < |rows|
    requires ExitsSetLevel(rows, leg, dead, x, k)
    ensures ExitsSetLevel(rows, leg, dead, x, k + 1)
  {
    if Overlong(rows, leg, k, dead) {
      OneMoreExit(rows, leg, dead, x, k);
    } else {
      NoMoreExit(rows, leg, dead, x, k);
    }
  }

  /** Adding the exits of a leg to its rows changes the level exactly inside the
      lost exits, where it becomes zero. */
  lemma {:induction false} HeldWithExits(rows: seq<Row>, leg: Leg, dead: real, x: real, n: nat)
    requires Sorted(rows) && dead >= 0.0 && n <= |rows|
    ensures ExitsSetLevel(rows, leg, dead, x, n)
  {
    if n == 0 {
      NoExitYet(rows, leg, dead, x);
    } else {
      HeldWithExits(rows, leg, dead, x, n - 1);
      ExitStep(rows, leg, dead, x, n - 1);
    }
  }

  // ------------------------------------------------------------ resampling

  ghost predicate Ascending(s: seq<real>) {
    forall i, j :: 0 <= i < j < |s| ==> s[i] < s[j]
  }

  lemma {:induction false} InsertTimeMeans(s: seq<real>, x: real)
    requires Ascending(s)
    ensures Ascending(InsertTime(s, x))
    ensures forall y :: y in InsertTime(s, x) <==> y in s || y == x
  {
    if s != [] && s[|s| - 1] > x {
      var n := |s| - 1;
      InsertTimeMeans(s[..n], x);
      assert s == s[..n] + [s[n]];
      var r := InsertTime(s[..n], x);
      forall i | 0 <= i < |r|
        ensures r[i] < s[n]
      {
        assert r[i] in r;
      }
    }
  }

  predicate HasTime(ps: seq<Point>, x: real) { exists p :: p in ps && p.t == x }

  lemma {:induction false} UniqueTimesMeans(ps: seq<Point>)
    ensures Ascending(UniqueTimes(ps))
    ensures forall x :: x in UniqueTimes(ps) <==> HasTime(ps, x)
  {
    if ps != [] {
      var n := |ps| - 1;
      UniqueTimesMeans(ps[..n]);
      InsertTimeMeans(UniqueTimes(ps[..n]), ps[n].t);
      assert ps == ps[..n] + [ps[n]];
      forall x
        ensures HasTime(ps, x) <==> HasTime(ps[..n], x) || x == ps[n].t
      {
        if HasTime(ps[..n], x) {
          var p :| p in ps[..n] && p.t == x;
          assert p in ps;
        }
        if x == ps[n].t {
          assert ps[n] in ps;
        }
      }
    }
  }

  lemma {:induction false} ExitsMean(rows: seq<Row>, leg: Leg, dead: real, n: nat)
    requires n <= |rows|
    ensures forall e :: e in Exits(rows, leg, dead, n) ==>
              exists i :: i < n && Overlong(rows, leg, i, dead) && e == Point(rows[i].t + dead, ZERO)
    ensures forall i :: i < n && Overlong(rows, leg, i, dead) ==>
              Point(rows[i].t + dead, ZERO) in Exits(rows, leg, dead, n)
  {
    if n > 0 {
      ExitsMean(rows, leg, dead, n - 1);
    }
  }

  ghost function OverlongRows(rows: seq<Row>, leg: Leg, dead: real, n: nat): set<int> {
    set i | 0 <= i < n && Overlong(rows, leg, i, dead)
  }

  lemma OneMoreOverlong(rows: seq<Row>, leg: Leg, dead: real, n: nat)
    requires 0 < n <= |rows|
    ensures var before, now := OverlongRows(rows, leg, dead, n - 1), OverlongRows(rows, leg, dead, n);
            |now| == |before| + if Overlong(rows, leg, n - 1, dead) then 1 else 0
  {
    var before, now := OverlongRows(rows, leg, dead, n - 1), OverlongRows(rows, leg, dead, n);
    if Overlong(rows, leg, n - 1, dead) {
      assert now == before + {n - 1};
    } else {
      assert now == before;
    }
  }

  /** As many exits as over-long rows. */
  lemma {:induction false} ExitsCounted(rows: seq<Row>, leg: Leg, dead: real, n: nat)
    requires n <= |rows|
    ensures |Exits(rows, leg, dead, n)| == |OverlongRows(rows, leg, dead, n)|
  {
    if n > 0 {
      ExitsCounted(rows, leg, dead, n - 1);
      OneMoreOverlong(rows, leg, dead, n);
    }
  }

  lemma ExitsWithin(rows: seq<Row>, leg: Leg, dead: real)
    requires Sorted(rows) && dead >= 0.0 && rows != []
    ensures forall e :: e in Exits(rows, leg, dead, |rows|) ==>
              rows[0].t <= e.t <= rows[|rows| - 1].t
  {
    ExitsMean(rows, leg, dead, |rows|);
  }

  lemma CollectedWithin(work: seq<Row>, dead: real)
    requires Sorted(work) && dead >= 0.0 && work != []
    ensures forall p :: p in Collected(work, dead) ==> work[0].t <= p.t <= work[|work| - 1].t
  {
    ExitsWithin(work, A, dead);
    ExitsWithin(work, B, dead);
    ExitsWithin(work, C, dead);
  }

  lemma CollectedHasAll(work: seq<Row>, leg: Leg, dead: real, p: Point)
    requires p in AllPoints(work, leg, dead)
    ensures HasTime(Collected(work, dead), p.t)
  {
    if p in Exits(work, leg, dead, |work|) {
      assert p in Collected(work, dead);
    } else {
      var i :| 0 <= i < |work| && p == Points(work, leg)[i];
      assert Points(work, A)[i] in Collected(work, dead);
    }
  }

  /** The emitted instants: those of the rows and of every leg's exits. */
  lemma UnionMeans(work: seq<Row>, leg: Leg, dead: real)
    requires Sorted(work) && dead >= 0.0 && work != []
    ensures Ascending(UnionTimes(work, dead))
    ensures forall p :: p in AllPoints(work, leg, dead) ==> p.t in UnionTimes(work, dead)
    ensures forall u :: u in UnionTimes(work, dead) ==> work[0].t <= u <= work[|work| - 1].t
  {
    UniqueTimesMeans(Collected(work, dead));
    CollectedWithin(work, dead);
    forall p | p in AllPoints(work, leg, dead)
      ensures HasTime(Collected(work, dead), p.t)
    {
      CollectedHasAll(work, leg, dead, p);
    }
  }

  /** A sorted sequence that samples a waveform at every instant where the
      waveform has a point is the same waveform. */
  lemma SamplesAreEnough(ps: seq<Point>, qs: seq<Point>, x: real)
    requires SortedPoints(qs)
    requires forall q :: q in qs ==> Level(Held(ps, q.t)) == Some(q.v)
    requires forall p :: p in ps ==> HasTime(qs, p.t)
    ensures Level(Held(qs, x)) == Level(Held(ps, x))
  {
    HeldMeans(qs, x);
    HeldMeans(ps, x);
    match Held(qs, x) {
      case None =>
        forall p | p in ps
          ensures p.t > x
        {
          var q :| q in qs && q.t == p.t;
        }
      case Some(q) =>
        forall p | p in ps && p.t <= x
          ensures p.t <= q.t
        {
          var r :| r in qs && r.t == p.t;
        }
        HeldStays(ps, q.t, x);
    }
  }

  /** Every sample of the resampled leg is the level its own points hold. */
  lemma ResampledSamples(work: seq<Row>, leg: Leg, dead: real, q: Point)
    requires Sorted(work) && work != [] && dead >= 0.0
    requires q in Points(Resampled(work, dead), leg)
    ensures Level(Held(AllPoints(work, leg, dead), q.t)) == Some(q.v)
  {
    var times := UnionTimes(work, dead);
    UnionMeans(work, leg, dead);
    var i :| 0 <= i < |times| && Points(Resampled(work, dead), leg)[i] == q;
    assert times[i] in times;
    SampleIsHeld(work, leg, dead, times[i]);
  }

  lemma ResampledInstants(work: seq<Row>, leg: Leg, dead: real, p: Point)
    requires Sorted(work) && work != [] && dead >= 0.0
    requires p in AllPoints(work, leg, dead)
    ensures HasTime(Points(Resampled(work, dead), leg), p.t)
  {
    var times, qs := UnionTimes(work, dead), Points(Resampled(work, dead), leg);
    UnionMeans(work, leg, dead);
    var i :| 0 <= i < |times| && times[i] == p.t;
    assert qs[i] in qs;
  }

  lemma ResampledSorted(work: seq<Row>, leg: Leg, dead: real)
    requires work != []
    ensures Sorted(Resampled(work, dead)) && SortedPoints(Points(Resampled(work, dead), leg))
  {
    var times, out := UnionTimes(work, dead), Resampled(work, dead);
    UniqueTimesMeans(Collected(work, dead));
    forall i, j | 0 <= i < j < |out|
      ensures out[i].t < out[j].t
    {
      assert times[i] < times[j];
    }
    PointsSorted(out, leg);
  }

  /** The resampled stream, read as a waveform, is the held level of the leg's
      own points. */
  lemma WaveOfResampled(work: seq<Row>, leg: Leg, dead: real, x: real)
    requires Sorted(work) && work != [] && dead >= 0.0
    ensures Wave(Resampled(work, dead), leg, x) == Level(Held(AllPoints(work, leg, dead), x))
  {
    var ps, qs := AllPoints(work, leg, dead), Points(Resampled(work, dead), leg);
    ResampledSorted(work, leg, dead);
    forall q | q in qs
      ensures Level(Held(ps, q.t)) == Some(q.v)
    {
      ResampledSamples(work, leg, dead, q);
    }
    forall p | p in ps
      ensures HasTime(qs, p.t)
    {
      ResampledInstants(work, leg, dead, p);
    }
    SamplesAreEnough(ps, qs, x);
  }

  // ------------------------------------------------------------ duplicates

  ghost predicate NoRepeats(rows: seq<Row>) {
    forall i, j :: 0 <= i < j < |rows| && j == i + 1 ==> rows[i] != rows[j]
  }

  predicate Repeats(rows: seq<Row>, i: int) { 0 < i < |rows| && rows[i] == rows[i - 1] }

  ghost function RepeatedRows(rows: seq<Row>): set<int> { set i | 0 <= i < |rows| && Repeats(rows, i) }

  lemma OneMoreRepeat(rows: seq<Row>)
    requires rows != []
    ensures |RepeatedRows(rows)|
         == |RepeatedRows(rows[..|rows| - 1])| + if Repeats(rows, |rows| - 1) then 1 else 0
  {
    var n := |rows| - 1;
    var before, now := RepeatedRows(rows[..n]), RepeatedRows(rows);
    assert forall i :: 0 <= i < n ==> (Repeats(rows, i) <==> Repeats(rows[..n], i));
    if Repeats(rows, n) {
      assert now == before + {n};
    } else {
      assert now == before;
    }
  }

  /** As many rows are dropped as repeat the one before them. */
  lemma {:induction false} RepeatsCounted(rows: seq<Row>)
    ensures |rows| - |Dedup(rows)| == |RepeatedRows(rows)|
  {
    if rows != [] {
      var n := |rows| - 1;
      RepeatsCounted(rows[..n]);
      OneMoreRepeat(rows);
    }
  }

  /** The report counts what the repair does: an insertion for every over-long dead
      row of a leg, and the repeats dropped. */
  lemma ReportCounts(rows: seq<Row>, dead: real)
    ensures var work := Dedup(rows);
      && Inserted(work, dead) == |OverlongRows(work, A, dead, |work|)| + |OverlongRows(work, B, dead, |work|)|
                                + |OverlongRows(work, C, dead, |work|)|
      && |rows| - |work| == |RepeatedRows(rows)|
  {
    var work := Dedup(rows);
    ExitsCounted(work, A, dead, |work|);
    ExitsCounted(work, B, dead, |work|);
    ExitsCounted(work, C, dead, |work|);
    RepeatsCounted(rows);
  }

  lemma {:induction false} DedupTidies(rows: seq<Row>)
    requires Sorted(rows)
    ensures Sorted(Dedup(rows)) && NoRepeats(Dedup(rows))
    decreases |rows|
  {
    if rows != [] {
      var n := |rows| - 1;
      DedupTidies(rows[..n]);
    }
  }

  lemma DedupOneMore(rows: seq<Row>, r: Row)
    ensures Dedup(rows + [r])
         == if rows != [] && r == rows[|rows| - 1] then Dedup(rows) else Dedup(rows) + [r]
  {
    assert (rows + [r])[..|rows|] == rows;
  }

  lemma LevelOneMore(rows: seq<Row>, r: Row, leg: Leg, x: real)
    requires Sorted(rows)
    requires Held(Points(Dedup(rows), leg), x) == Held(Points(rows, leg), x)
    ensures Held(Points(Dedup(rows + [r]), leg), x) == Held(Points(rows + [r], leg), x)
  {
    DedupOneMore(rows, r);
    if rows != [] && r == rows[|rows| - 1] {
      HeldRepeated(rows, leg, x);
    } else {
      HeldAlike(Dedup(rows), rows, r, leg, x);
    }
  }

  lemma {:induction false} DedupKeepsLevel(rows: seq<Row>, leg: Leg, x: real)
    requires Sorted(rows)
    ensures Held(Points(Dedup(rows), leg), x) == Held(Points(rows, leg), x)
    decreases |rows|
  {
    if rows != [] {
      var before, r := rows[..|rows| - 1], rows[|rows| - 1];
      assert rows == before + [r];
      DedupKeepsLevel(before, leg, x);
      LevelOneMore(before, r, leg, x);
    }
  }

  lemma HeldAlike(kept: seq<Row>, rows: seq<Row>, r: Row, leg: Leg, x: real)
    requires Held(Points(kept, leg), x) == Held(Points(rows, leg), x)
    ensures Held(Points(kept + [r], leg), x) == Held(Points(rows + [r], leg), x)
  {
    HeldOneMore(kept, r, leg, x);
    HeldOneMore(rows, r, leg, x);
  }

  lemma {:induction false} DedupKeepsLost(rows: seq<Row>, leg: Leg, dead: real, x: real)
    requires dead >= 0.0
    ensures InLostExit(Dedup(rows), leg, dead, x) <==> InLostExit(rows, leg, dead, x)
    decreases |rows|
  {
    if rows != [] {
      var n := |rows| - 1;
      DedupKeepsLost(rows[..n], leg, dead, x);
      LostExitOneMore(rows[..n], rows[n], leg, dead, x);
      LostExitOneMore(Dedup(rows[..n]), rows[n], leg, dead, x);
      assert rows == rows[..n] + [rows[n]];
    }
  }

  lemma HeldOneMore(rows: seq<Row>, r: Row, leg: Leg, x: real)
    ensures Held(Points(rows + [r], leg), x)
         == Pick(Held(Points(rows, leg), x), Point(r.t, r.Of(leg)), x)
  {
    assert Points(rows + [r], leg) == Points(rows, leg) + [Point(r.t, r.Of(leg))];
    HeldOfAppend(Points(rows, leg), Point(r.t, r.Of(leg)), x);
  }

  lemma HeldRepeated(rows: seq<Row>, leg: Leg, x: real)
    requires Sorted(rows) && rows != []
    ensures Held(Points(rows + [rows[|rows| - 1]], leg), x) == Held(Points(rows, leg), x)
  {
    HeldOneMore(rows, rows[|rows| - 1], leg, x);
    PointsSorted(rows, leg);
    HeldInSorted(Points(rows, leg), x);
  }

  /** Only the last row and its successor can make a new lost exit. */
  lemma LostExitOneMore(rows: seq<Row>, r: Row, leg: Leg, dead: real, x: real)
    ensures InLostExit(rows + [r], leg, dead, x) <==>
      || InLostExit(rows, leg, dead, x)
      || (rows != [] && IsDead(rows[|rows| - 1].Of(leg)) && r.t - rows[|rows| - 1].t > dead * HOLD_TOL
          && rows[|rows| - 1].t + dead <= x < r.t)
  {
    var more := rows + [r];
    if InLostExit(rows, leg, dead, x) {
      var i :| Overlong(rows, leg, i, dead) && rows[i].t + dead <= x < rows[i + 1].t;
      assert Overlong(more, leg, i, dead);
    }
    if rows != [] && IsDead(rows[|rows| - 1].Of(leg)) && r.t - rows[|rows| - 1].t > dead * HOLD_TOL
       && rows[|rows| - 1].t + dead <= x < r.t {
      assert Overlong(more, leg, |rows| - 1, dead);
    }
    if InLostExit(more, leg, dead, x) {
      var i :| Overlong(more, leg, i, dead) && more[i].t + dead <= x < more[i + 1].t;
      assert i < |rows| - 1 ==> Overlong(rows, leg, i, dead);
    }
  }

  lemma {:induction false} DedupIdempotent(rows: seq<Row>)
    requires NoRepeats(rows)
    ensures Dedup(rows) == rows
  {
    if rows != [] {
      var before, r := rows[..|rows| - 1], rows[|rows| - 1];
      assert rows == before + [r];
      DedupIdempotent(before);
      DedupOneMore(before, r);
    }
  }

  // ------------------------------------------------------------ main results

  lemma NoExits(work: seq<Row>, leg: Leg, dead: real)
    requires Inserted(work, dead) == 0
    ensures forall i :: !Overlong(work, leg, i, dead)
  {
    ExitsMean(work, leg, dead, |work|);
  }

  /** The repair keeps every leg's waveform, at every instant, except that the
      lost exits of an over-long dead row become zero. */
  lemma RepairKeepsWaveform(rows: seq<Row>, leg: Leg, dead: real, x: real)
    requires Sorted(rows) && dead >= 0.0
    ensures Wave(Repaired(rows, dead), leg, x)
         == if InLostExit(rows, leg, dead, x) then Some(ZERO) else Wave(rows, leg, x)
  {
    if |rows| >= 2 {
      var work := Dedup(rows);
      DedupTidies(rows);
      DedupKeepsLevel(rows, leg, x);
      DedupKeepsLost(rows, leg, dead, x);
      if Inserted(work, dead) == 0 {
        NoExits(work, leg, dead);
      } else {
        WaveOfResampled(work, leg, dead, x);
        HeldWithExits(work, leg, dead, x, |work|);
      }
    }
  }

  /** The same in the terms of the stream: a leg is zero (6) from the dead time after
      a dead row (2 or 4) that is followed by a gap of more than five dead times, up
      to the next row, and as before everywhere else. */
  lemma RepairInPlainTerms(rows: seq<Row>, leg: Leg, dead: real, x: real)
    requires Sorted(rows) && dead >= 0.0
    ensures Wave(Repaired(rows, dead), leg, x)
         == if exists i :: 0 <= i < |rows| - 1 && CutsAt(rows, leg, i, dead, x) then Some(6) else Wave(rows, leg, x)
  {
    RepairKeepsWaveform(rows, leg, dead, x);
    if InLostExit(rows, leg, dead, x) {
      var i :| Overlong(rows, leg, i, dead) && rows[i].t + dead <= x < rows[i + 1].t;
      assert CutsAt(rows, leg, i, dead, x);
    }
    if i :| 0 <= i < |rows| - 1 && CutsAt(rows, leg, i, dead, x) {
      assert Overlong(rows, leg, i, dead);
    }
  }

  ghost predicate CutsAt(rows: seq<Row>, leg: Leg, i: int, dead: real, x: real)
    requires 0 <= i < |rows| - 1
  {
    && (rows[i].Of(leg) == 2 || rows[i].Of(leg) == 4)
    && rows[i + 1].t - rows[i].t > 5.0 * dead
    && rows[i].t + dead <= x < rows[i + 1].t
  }

  ghost predicate RowInstant(work: seq<Row>, x: real) { exists i :: 0 <= i < |work| && work[i].t == x }

  ghost predicate ExitInstant(work: seq<Row>, leg: Leg, dead: real, x: real) {
    exists i :: Overlong(work, leg, i, dead) && work[i].t + dead == x
  }

  lemma ExitsAtInstants(work: seq<Row>, leg: Leg, dead: real, x: real)
    ensures HasTime(Exits(work, leg, dead, |work|), x) <==> ExitInstant(work, leg, dead, x)
  {
    ExitsMean(work, leg, dead, |work|);
    if ExitInstant(work, leg, dead, x) {
      var i :| Overlong(work, leg, i, dead) && work[i].t + dead == x;
      assert Point(work[i].t + dead, ZERO) in Exits(work, leg, dead, |work|);
    }
  }

  lemma PointsAtInstants(work: seq<Row>, x: real)
    ensures HasTime(Points(work, A), x) <==> RowInstant(work, x)
  {
    if RowInstant(work, x) {
      var i :| 0 <= i < |work| && work[i].t == x;
      assert Points(work, A)[i] in Points(work, A);
    }
  }

  lemma JoinedTimes(ps: seq<Point>, qs: seq<Point>, x: real)
    ensures HasTime(ps + qs, x) <==> HasTime(ps, x) || HasTime(qs, x)
  {
    if HasTime(ps, x) {
      var p :| p in ps && p.t == x;
      assert p in ps + qs;
    }
    if HasTime(qs, x) {
      var q :| q in qs && q.t == x;
      assert q in ps + qs;
    }
  }

  /** A repaired stream has one row for every instant at which the stream had a row
      or a leg gets its exit back, and no other, in order. */
  lemma RepairedInstantsExactly(rows: seq<Row>, dead: real, x: real)
    requires |rows| >= 2 && Inserted(Dedup(rows), dead) > 0
    ensures var out, work := Repaired(rows, dead), Dedup(rows);
      && (forall i, j :: 0 <= i < j < |out| ==> out[i].t < out[j].t)
      && (RowInstant(out, x) <==> RowInstant(work, x) || exists leg :: ExitInstant(work, leg, dead, x))
  {
    var out, work := Repaired(rows, dead), Dedup(rows);
    var times := UnionTimes(work, dead);
    var a, b, c := Exits(work, A, dead, |work|), Exits(work, B, dead, |work|), Exits(work, C, dead, |work|);
    UniqueTimesMeans(Collected(work, dead));
    assert forall j :: 0 <= j < |out| ==> out[j].t == times[j];
    JoinedTimes(Points(work, A), a, x);
    JoinedTimes(Points(work, A) + a, b, x);
    JoinedTimes(Points(work, A) + a + b, c, x);
    PointsAtInstants(work, x);
    ExitsAtInstants(work, A, dead, x);
    ExitsAtInstants(work, B, dead, x);
    ExitsAtInstants(work, C, dead, x);
    InstantsOf(out, times, x);
    AnyLeg(work, dead, x);
  }

  lemma InstantsOf(out: seq<Row>, times: seq<real>, x: real)
    requires |out| == |times| && forall j :: 0 <= j < |out| ==> out[j].t == times[j]
    ensures RowInstant(out, x) <==> x in times
  {
    if x in times {
      var j :| 0 <= j < |times| && times[j] == x;
      assert out[j].t == x;
    }
  }

  lemma AnyLeg(work: seq<Row>, dead: real, x: real)
    ensures (exists leg :: ExitInstant(work, leg, dead, x))
       <==> ExitInstant(work, A, dead, x) || ExitInstant(work, B, dead, x) || ExitInstant(work, C, dead, x)
  {
    if exists leg :: ExitInstant(work, leg, dead, x) {
      var leg :| ExitInstant(work, leg, dead, x);
      assert leg == A || leg == B || leg == C;
    }
  }

  /** An instant that belongs to the union bounds the instant after an earlier
      one. */
  lemma NextInstant(work: seq<Row>, leg: Leg, dead: real, j: nat, x: real)
    requires Sorted(work) && dead >= 0.0 && work != []
    requires j + 1 < |UnionTimes(work, dead)| && UnionTimes(work, dead)[j] < x
    requires HasTime(AllPoints(work, leg, dead), x)
    ensures UnionTimes(work, dead)[j + 1] <= x
  {
    var times := UnionTimes(work, dead);
    UnionMeans(work, leg, dead);
    var p :| p in AllPoints(work, leg, dead) && p.t == x;
    var m :| 0 <= m < |times| && times[m] == x;
  }

  lemma RowTime(work: seq<Row>, leg: Leg, dead: real, k: nat)
    requires k < |work|
    ensures HasTime(AllPoints(work, leg, dead), work[k].t)
    ensures Overlong(work, leg, k, dead) ==> HasTime(AllPoints(work, leg, dead), work[k].t + dead)
  {
    var ps := AllPoints(work, leg, dead);
    ExitsMean(work, leg, dead, |work|);
    assert ps[..|work|][k] == Points(work, leg)[k];
    assert ps[k] in ps;
    if Overlong(work, leg, k, dead) {
      assert Point(work[k].t + dead, ZERO) in ps;
    }
  }

  /** A dead level in the resampled stream comes from a dead row, and outside
      its lost exit. */
  lemma DeadLevelComesFromRow(work: seq<Row>, leg: Leg, dead: real, u: real) returns (k: nat)
    requires Sorted(work) && dead >= 0.0 && work != [] && work[0].t <= u
    requires IsDead(Resample(work, leg, dead, u))
    ensures k < |work| && work[k].t <= u && IsDead(work[k].Of(leg))
    ensures k + 1 < |work| ==> u < work[k + 1].t
    ensures Overlong(work, leg, k, dead) ==> u < work[k].t + dead
  {
    SampleIsHeld(work, leg, dead, u);
    HeldWithExits(work, leg, dead, u, |work|);
    PointsSorted(work, leg);
    HeldInSorted(Points(work, leg), u);
    assert Points(work, leg)[0].t <= u;
    k := SearchRight(Points(work, leg), u) - 1;
  }

  /** In the resampled stream a dead level never outlasts the limit. */
  lemma ResampledIsSettled(work: seq<Row>, leg: Leg, dead: real, j: int)
    requires Sorted(work) && dead >= 0.0 && work != []
    ensures !Overlong(Resampled(work, dead), leg, j, dead)
  {
    var times := UnionTimes(work, dead);
    if 0 <= j < |times| - 1 && IsDead(Resample(work, leg, dead, times[j])) {
      UnionMeans(work, leg, dead);
      assert times[j] in times && times[j + 1] in times;
      var k := DeadLevelComesFromRow(work, leg, dead, times[j]);
      assert k + 1 < |work|;
      RowTime(work, leg, dead, k);
      RowTime(work, leg, dead, k + 1);
      NextInstant(work, leg, dead, j, work[k + 1].t);
      if Overlong(work, leg, k, dead) {
        NextInstant(work, leg, dead, j, work[k].t + dead);
      }
      assert times[j + 1] - times[j] <= dead * HOLD_TOL;
    }
  }

  /** After the repair every non-final dead row of a leg is followed by another
      row within the limit. */
  lemma RepairSettles(rows: seq<Row>, leg: Leg, dead: real, j: int)
    requires Sorted(rows) && dead >= 0.0
    ensures !Overlong(Repaired(rows, dead), leg, j, dead)
  {
    if |rows| >= 2 {
      var work := Dedup(rows);
      DedupTidies(rows);
      if Inserted(work, dead) == 0 {
        NoExits(work, leg, dead);
      } else {
        ResampledIsSettled(work, leg, dead, j);
      }
    }
  }

  lemma {:induction false} NothingToInsert(rows: seq<Row>, leg: Leg, dead: real, n: nat)
    requires n <= |rows| && forall j :: !Overlong(rows, leg, j, dead)
    ensures Exits(rows, leg, dead, n) == []
  {
    if n > 0 { NothingToInsert(rows, leg, dead, n - 1); }
  }

  lemma RepairHasNoRepeats(rows: seq<Row>, dead: real)
    requires Sorted(rows)
    ensures NoRepeats(Repaired(rows, dead))
  {
    DedupTidies(rows);
    UniqueTimesMeans(Collected(Dedup(rows), dead));
  }

  /** A stream without repeats and over-long dead rows passes unchanged. */
  lemma CleanStreamUnchanged(rows: seq<Row>, dead: real)
    requires NoRepeats(rows)
    requires forall leg, j :: !Overlong(rows, leg, j, dead)
    ensures Repaired(rows, dead) == rows
    ensures Dedup(rows) == rows && Inserted(rows, dead) == 0
  {
    DedupIdempotent(rows);
    NothingToInsert(rows, A, dead, |rows|);
    NothingToInsert(rows, B, dead, |rows|);
    NothingToInsert(rows, C, dead, |rows|);
  }

  /** Repairing twice is repairing once: the second pass drops nothing and
      inserts nothing. */
  lemma RepairIdempotent(rows: seq<Row>, dead: real)
    requires Sorted(rows) && dead >= 0.0
    ensures var out := Repaired(rows, dead);
            Repaired(out, dead) == out && Dedup(out) == out && Inserted(out, dead) == 0
  {
    RepairHasNoRepeats(rows, dead);
    forall leg, j
      ensures !Overlong(Repaired(rows, dead), leg, j, dead)
    {
      RepairSettles(rows, leg, dead, j);
    }
    CleanStreamUnchanged(Repaired(rows, dead), dead);
  }

  /** Nothing is left to do: no repeated row, no over-long dead row. */
  ghost predicate Clean(rows: seq<Row>, dead: real) {
    NoRepeats(rows) && forall leg, j :: !Overlong(rows, leg, j, dead)
  }

  /** The streams that the repair leaves as they are. */
  lemma UnchangedExactly(rows: seq<Row>, dead: real)
    requires Sorted(rows) && dead >= 0.0
    ensures Repaired(rows, dead) == rows <==> Clean(rows, dead)
  {
    if Clean(rows, dead) {
      CleanStreamUnchanged(rows, dead);
    }
    if Repaired(rows, dead) == rows {
      RepairHasNoRepeats(rows, dead);
      forall leg, j
        ensures !Overlong(rows, leg, j, dead)
      {
        RepairSettles(rows, leg, dead, j);
      }
    }
  }

  // ------------------------------------------------------------ the estimate at work

  lemma {:induction false} StaysAreNotNegative(rows: seq<Row>, leg: Leg, n: nat)
    requires Sorted(rows) && n <= |rows|
    ensures forall d :: d in DeadStays(rows, leg, n) ==> d >= 0.0
  {
    if n >= 2 { StaysAreNotNegative(rows, leg, n - 1); }
  }

  lemma MedianAtLeast(s: seq<real>, low: real)
    requires s != [] && forall x :: x in s ==> x >= low
    ensures Median(s) >= low
  {
    var r := Sort(s, AtMost);
    SortPermutes(s, AtMost);
    SameMembers(r, s);
    MedianBetween(s, (|s| - 1) / 2, |s| / 2);
    assert r[(|s| - 1) / 2] in r;
  }

  lemma EstimateIsNotNegative(rows: seq<Row>)
    requires Sorted(rows)
    ensures Estimate(rows) >= 0.0
  {
    StaysAreNotNegative(rows, A, |rows|);
    StaysAreNotNegative(rows, B, |rows|);
    StaysAreNotNegative(rows, C, |rows|);
    if AllDeadStays(rows) != [] { MedianAtLeast(AllDeadStays(rows), 0.0); }
  }

  /** With no dead time given the repair does to the waveform what it does with
      the estimate: nothing but zero inside the lost exits, and no dead row stays
      over-long. */
  lemma DefaultRepairKeepsWaveform(rows: seq<Row>, leg: Leg, x: real, j: int)
    requires Sorted(rows)
    ensures var dead := DeadTimeFor(Dedup(rows), None);
            var out := Repaired(rows, dead);
      && Wave(out, leg, x) == (if InLostExit(rows, leg, dead, x) then Some(ZERO) else Wave(rows, leg, x))
      && !Overlong(out, leg, j, dead)
  {
    DedupTidies(rows);
    EstimateIsNotNegative(Dedup(rows));
    var dead := Estimate(Dedup(rows));
    RepairKeepsWaveform(rows, leg, dead, x);
    RepairSettles(rows, leg, dead, j);
  }

  lemma RepairKeepsOrder(rows: seq<Row>, dead: real)
    requires Sorted(rows)
    ensures Sorted(Repaired(rows, dead))
  {
    if |rows| >= 2 {
      DedupTidies(rows);
      ResampledSorted(Dedup(rows), A, dead);
    }
  }

  /** A second repair estimates anew. It changes nothing exactly when no dead row
      is over-long by the new estimate, in particular when that has not fallen. */
  lemma DefaultRepairSettlesExactly(rows: seq<Row>)
    requires Sorted(rows)
    ensures var dead := DeadTimeFor(Dedup(rows), None);
            var out := Repaired(rows, dead);
            var again := DeadTimeFor(Dedup(out), None);
      && (Repaired(out, again) == out <==> forall leg, j :: !Overlong(out, leg, j, again))
      && (again >= dead ==> Repaired(out, again) == out)
  {
    DedupTidies(rows);
    EstimateIsNotNegative(Dedup(rows));
    var dead := Estimate(Dedup(rows));
    var out := Repaired(rows, dead);
    RepairKeepsOrder(rows, dead);
    RepairHasNoRepeats(rows, dead);
    DedupIdempotent(out);
    EstimateIsNotNegative(out);
    UnchangedExactly(out, Estimate(out));
    forall leg, j | Estimate(out) >= dead
      ensures !Overlong(out, leg, j, Estimate(out))
    {
      RepairSettles(rows, leg, dead, j);
      assert !Overlong(out, leg, j, dead);
    }
  }
}
