/** A stream on which repairing twice with the estimated dead time is not repairing
    once: cutting a lost exit lowers the median of the dead stays, and by the lower
    estimate another stay is over-long. */
module RepairTwice {
  import opened Legs
  import opened Repair
  import opened Sorting
  import opened Wrappers

  /** Leg C loses an exit after the first row. */
  function Stream(): seq<Row> {
    [Row(0.0, 6, 6, 2), Row(500.0, 2, 2, 2), Row(501.0, 6, 2, 6), Row(510.0, 6, 6, 6),
     Row(520.0, 6, 2, 6), Row(560.0, 2, 6, 6), Row(561.0, 6, 6, 6)]
  }

  /** The stream with the exit put back. */
  function Once(): seq<Row> {
    [Row(0.0, 6, 6, 2), Row(10.0, 6, 6, 6), Row(500.0, 2, 2, 2), Row(501.0, 6, 2, 6), Row(510.0, 6, 6, 6),
     Row(520.0, 6, 2, 6), Row(560.0, 2, 6, 6), Row(561.0, 6, 6, 6)]
  }

  // ------------------------------------------------------------ the estimates

  lemma {:induction false} SortOfSorted(s: seq<real>)
    requires forall i, j :: 0 <= i <= j < |s| ==> s[i] <= s[j]
    ensures Sort(s, AtMost) == s
  {
    if s != [] {
      var n := |s| - 1;
      SortOfSorted(s[..n]);
      assert s == s[..n] + [s[n]];
      assert n > 0 ==> AtMost(s[n - 1], s[n]);
    }
  }

  /** A dead stay that starts at row `i`, or goes back one row more, and ends at
      row `n - 1`. */
  lemma OneStay(rows: seq<Row>, leg: Leg, n: nat, i: nat)
    requires 2 <= n <= |rows| && i <= n - 2 <= i + 1
    requires IsDead(rows[n - 2].Of(leg)) && rows[n - 1].Of(leg) != rows[n - 2].Of(leg)
    requires rows[i].Of(leg) == rows[n - 2].Of(leg) && (i > 0 ==> rows[i - 1].Of(leg) != rows[i].Of(leg))
    ensures DeadStays(rows, leg, n) == DeadStays(rows, leg, n - 1) + [rows[n - 1].t - rows[i].t]
  {
    assert StayStart(rows, leg, i) == i;
    assert StayStart(rows, leg, n - 2) == i;
  }

  lemma NoStay(rows: seq<Row>, leg: Leg, n: nat)
    requires 2 <= n <= |rows|
    requires rows[n - 1].Of(leg) == rows[n - 2].Of(leg) || !IsDead(rows[n - 2].Of(leg))
    ensures DeadStays(rows, leg, n) == DeadStays(rows, leg, n - 1)
  {}

  lemma StaysOfStream()
    ensures AllDeadStays(Stream()) == [1.0, 1.0, 10.0, 40.0, 501.0]
  {
    var s := Stream();
    NoStay(s, A, 2);
    OneStay(s, A, 3, 1);
    NoStay(s, A, 4);
    NoStay(s, A, 5);
    NoStay(s, A, 6);
    OneStay(s, A, 7, 5);
    assert DeadStays(s, A, 7) == [] + [1.0] + [1.0];
    NoStay(s, B, 2);
    NoStay(s, B, 3);
    OneStay(s, B, 4, 1);
    NoStay(s, B, 5);
    OneStay(s, B, 6, 4);
    NoStay(s, B, 7);
    assert DeadStays(s, B, 7) == [] + [10.0] + [40.0];
    NoStay(s, C, 2);
    OneStay(s, C, 3, 0);
    NoStay(s, C, 4);
    NoStay(s, C, 5);
    NoStay(s, C, 6);
    NoStay(s, C, 7);
    assert DeadStays(s, C, 7) == [] + [501.0];
  }

  lemma StaysOfOnce()
    ensures AllDeadStays(Once()) == [1.0, 1.0, 10.0, 40.0, 10.0, 1.0]
  {
    var s := Once();
    NoStay(s, A, 2);
    NoStay(s, A, 3);
    OneStay(s, A, 4, 2);
    NoStay(s, A, 5);
    NoStay(s, A, 6);
    NoStay(s, A, 7);
    OneStay(s, A, 8, 6);
    assert DeadStays(s, A, 8) == [] + [1.0] + [1.0];
    NoStay(s, B, 2);
    NoStay(s, B, 3);
    NoStay(s, B, 4);
    OneStay(s, B, 5, 2);
    NoStay(s, B, 6);
    OneStay(s, B, 7, 5);
    NoStay(s, B, 8);
    assert DeadStays(s, B, 8) == [] + [10.0] + [40.0];
    OneStay(s, C, 2, 0);
    NoStay(s, C, 3);
    OneStay(s, C, 4, 2);
    NoStay(s, C, 5);
    NoStay(s, C, 6);
    NoStay(s, C, 7);
    NoStay(s, C, 8);
    assert DeadStays(s, C, 8) == [] + [10.0] + [1.0];
  }

  lemma EstimateOfStream()
    ensures Estimate(Stream()) == 10.0
  {
    StaysOfStream();
    var s := [1.0, 1.0, 10.0, 40.0, 501.0];
    assert s[0] <= s[1] <= s[2] <= s[3] <= s[4];
    SortOfSorted(s);
  }

  lemma InsertBefore(s: seq<real>, last: real, x: real)
    requires x < last
    ensures Insert(s + [last], x, AtMost) == Insert(s, x, AtMost) + [last]
  {
    assert (s + [last])[..|s|] == s;
  }

  lemma SortOneMore(s: seq<real>, x: real)
    ensures Sort(s + [x], AtMost) == Insert(Sort(s, AtMost), x, AtMost)
  {
    assert (s + [x])[..|s|] == s;
  }

  /** `y` goes behind its equal, before `z`. */
  lemma SortFive(s: seq<real>, y: real, z: real)
    requires y < z && Sort(s + [y] + [z], AtMost) == s + [y] + [z]
    ensures Sort(s + [y] + [z] + [y], AtMost) == s + [y] + [y] + [z]
  {
    SortOneMore(s + [y] + [z], y);
    InsertBefore(s + [y], z, y);
    assert Insert(s + [y], y, AtMost) == s + [y] + [y];
  }

  /** `x` goes behind its equal, before the rest. */
  lemma InsertFirst(s: seq<real>, x: real, y: real, z: real)
    requires x < y < z && Insert(s, x, AtMost) == s + [x]
    ensures Insert(s + [y] + [y] + [z], x, AtMost) == s + [x] + [y] + [y] + [z]
  {
    InsertBefore(s + [y] + [y], z, x);
    InsertBefore(s + [y], y, x);
    InsertBefore(s, y, x);
  }

  lemma SortSix(x: real, y: real, z: real)
    requires x < y < z
    ensures Sort([x, x, y, z, y, x], AtMost) == [x, x, x, y, y, z]
  {
    var two := [x, x];
    SortOfSorted(two + [y] + [z]);
    SortFive(two, y, z);
    SortOneMore(two + [y] + [z] + [y], x);
    InsertFirst(two, x, y, z);
    assert [x, x, y, z, y, x] == two + [y] + [z] + [y] + [x];
  }

  lemma EstimateOfOnce()
    ensures Estimate(Once()) == 5.5
  {
    StaysOfOnce();
    SortSix(1.0, 10.0, 40.0);
  }

  // ------------------------------------------------------------ the first repair

  lemma OnlyExit(leg: Leg, j: int)
    ensures Overlong(Stream(), leg, j, 10.0) <==> leg == C && j == 0
  {}

  lemma ExitsOfStream(leg: Leg)
    ensures Exits(Stream(), leg, 10.0, 7) == if leg == C then [Point(10.0, ZERO)] else []
  {
    var s := Stream();
    forall j
      ensures Overlong(s, leg, j, 10.0) <==> leg == C && j == 0
    {
      OnlyExit(leg, j);
    }
    if leg == C {
      assert Exits(s, C, 10.0, 1) == [] + [Point(10.0, ZERO)];
      assert Exits(s, C, 10.0, 3) == Exits(s, C, 10.0, 1);
      assert Exits(s, C, 10.0, 5) == Exits(s, C, 10.0, 3);
    } else {
      NothingToInsert(s, leg, 10.0, 7);
    }
  }

  lemma Member(s: seq<real>) returns (x: real)
    requires s != []
    ensures x in s
  {
    x := s[0];
  }

  /** Ascending sequences with the same members are the same. */
  lemma {:induction false} AscendingUnique(a: seq<real>, b: seq<real>)
    requires Ascending(a) && Ascending(b) && forall x :: x in a <==> x in b
    ensures a == b
    decreases |a|
  {
    if a == [] {
      if b != [] {
        var x := Member(b);
        assert false;
      }
    } else {
      assert a[0] in a && b != [];
      var m, n := |a| - 1, |b| - 1;
      assert a[m] in b && b[n] in a && a[m] == b[n];
      forall x
        ensures x in a[..m] <==> x in b[..n]
      {
        assert x in a[..m] <==> x in a && x != a[m];
        assert x in b[..n] <==> x in b && x != b[n];
      }
      AscendingUnique(a[..m], b[..n]);
    }
  }

  function Times(): seq<real> { [0.0, 10.0, 500.0, 501.0, 510.0, 520.0, 560.0, 561.0] }

  lemma PointIsCollected(c: seq<Point>, k: nat)
    requires c == Points(Stream(), A) + [Point(10.0, ZERO)] && k < 8
    ensures c[k].t == if k == 0 then Times()[0] else if k == 7 then Times()[1] else Times()[k + 1]
  {}

  lemma TimeIsCollected(c: seq<Point>, x: real)
    requires c == Points(Stream(), A) + [Point(10.0, ZERO)]
    ensures HasTime(c, x) <==> x in Times()
  {
    if HasTime(c, x) {
      var k :| 0 <= k < |c| && c[k].t == x;
      PointIsCollected(c, k);
    }
    if x in Times() {
      var j :| 0 <= j < 8 && Times()[j] == x;
      var k := if j == 0 then 0 else if j == 1 then 7 else j - 1;
      PointIsCollected(c, k);
      assert c[k] in c;
    }
  }

  lemma TimesOfOnce()
    ensures UnionTimes(Stream(), 10.0) == Times()
  {
    ExitsOfStream(A);
    ExitsOfStream(B);
    ExitsOfStream(C);
    var c := Collected(Stream(), 10.0);
    assert c == Points(Stream(), A) + [Point(10.0, ZERO)];
    UniqueTimesMeans(c);
    forall x
      ensures HasTime(c, x) <==> x in Times()
    {
      TimeIsCollected(c, x);
    }
    AscendingUnique(UniqueTimes(c), Times());
  }

  /** A leg is resampled to its level in the row that holds, outside lost exits. */
  lemma ResampledFromRow(rows: seq<Row>, leg: Leg, dead: real, i: nat, x: real)
    requires Sorted(rows) && dead >= 0.0 && i < |rows| && rows[i].t <= x
    requires i + 1 < |rows| ==> x < rows[i + 1].t
    ensures Resample(rows, leg, dead, x) == if InLostExit(rows, leg, dead, x) then ZERO else rows[i].Of(leg)
  {
    SampleIsHeld(rows, leg, dead, x);
    HeldWithExits(rows, leg, dead, x, |rows|);
    PointsSorted(rows, leg);
    HeldInSorted(Points(rows, leg), x);
    assert Points(rows, leg)[i].t <= x;
  }

  lemma StreamIsSorted()
    ensures Sorted(Stream()) && NoRepeats(Stream())
  {}

  lemma OnceAt(i: nat, k: nat)
    requires i < 7 && k < 8 && k == if i == 0 then 0 else i + 1
    ensures ResampledRow(Stream(), 10.0, Times()[k]) == Once()[k]
  {
    var s, x := Stream(), Times()[k];
    StreamIsSorted();
    forall leg
      ensures Resample(s, leg, 10.0, x) == s[i].Of(leg)
    {
      ResampledFromRow(s, leg, 10.0, i, x);
      if InLostExit(s, leg, 10.0, x) {
        var j :| Overlong(s, leg, j, 10.0) && s[j].t + 10.0 <= x < s[j + 1].t;
        OnlyExit(leg, j);
      }
    }
    assert s[i] == Row(x, Once()[k].a, Once()[k].b, Once()[k].c);
  }

  lemma NoExitInStream(leg: Leg, x: real)
    requires leg != C
    ensures !InLostExit(Stream(), leg, 10.0, x)
  {
    forall j
      ensures !Overlong(Stream(), leg, j, 10.0)
    {
      OnlyExit(leg, j);
    }
  }

  lemma OnceAtExit()
    ensures ResampledRow(Stream(), 10.0, 10.0) == Once()[1]
  {
    var s := Stream();
    StreamIsSorted();
    OnlyExit(C, 0);
    assert InLostExit(s, C, 10.0, 10.0);
    NoExitInStream(A, 10.0);
    NoExitInStream(B, 10.0);
    ResampledFromRow(s, A, 10.0, 0, 10.0);
    ResampledFromRow(s, B, 10.0, 0, 10.0);
    ResampledFromRow(s, C, 10.0, 0, 10.0);
  }

  lemma RepairedOnce()
    ensures Dedup(Stream()) == Stream() && Repaired(Stream(), 10.0) == Once()
  {
    var s := Stream();
    StreamIsSorted();
    DedupIdempotent(s);
    ExitsOfStream(C);
    TimesOfOnce();
    var out := Resampled(s, 10.0);
    forall k | 0 <= k < 8
      ensures out[k] == Once()[k]
    {
      if k == 1 { OnceAtExit(); } else { OnceAt(if k == 0 then 0 else k - 1, k); }
    }
    assert out == Once();
  }

  // ------------------------------------------------------------ the second repair

  /** Repairing again with the dead time estimated again changes the stream again. */
  lemma SecondRepairCuts()
    ensures Sorted(Stream())
    ensures var once := Repaired(Stream(), DeadTimeFor(Dedup(Stream()), None));
            Repaired(once, DeadTimeFor(Dedup(once), None)) != once
  {
    StreamIsSorted();
    RepairedOnce();
    EstimateOfStream();
    EstimateOfOnce();
    OnceIsNotClean();
    DedupIdempotent(Once());
    UnchangedExactly(Once(), 5.5);
  }

  lemma OnceIsNotClean()
    ensures Sorted(Once()) && NoRepeats(Once()) && !Clean(Once(), 5.5)
  {
    assert Overlong(Once(), B, 5, 5.5);
  }
}
