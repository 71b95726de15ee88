/** Why the offline repair leaves genuine captures alone: the change-triggered
    event stream of three gate drivers. */
module GateStream {
  import opened Legs
  import D = GateDriver
  import opened Wrappers
  import R = Repair

  datatype Vectors = Vectors(a: int, b: int, c: int) {
    function Of(leg: Leg): int {
      match leg
      case A => a
      case B => b
      case C => c
    }
  }

  datatype Inputs = Inputs(a: D.Input, b: D.Input, c: D.Input) {
    function Of(leg: Leg): D.Input {
      match leg
      case A => a
      case B => b
      case C => c
    }
  }

  const ALL_OFF := Vectors(0, 0, 0)

  // ------------------------------------------------------------ capture

  /** The vectors before step `k`; before the first step everything is off. */
  function Before(vs: seq<Vectors>, k: nat): Vectors
    requires k < |vs|
  {
    if k == 0 then ALL_OFF else vs[k - 1]
  }

  predicate Changes(vs: seq<Vectors>, k: int) {
    0 <= k < |vs| && vs[k] != Before(vs, k)
  }

  function RowAt(vs: seq<Vectors>, times: seq<real>, k: nat): R.Row
    requires k < |vs| <= |times|
  {
    R.Row(times[k], vs[k].a, vs[k].b, vs[k].c)
  }

  /** The captured stream of the first `n` steps: one row a change, stamped with
      the time of its step. */
  function Captured(vs: seq<Vectors>, times: seq<real>, n: nat): seq<R.Row>
    requires n <= |vs| <= |times|
  {
    if n == 0 then []
    else if Changes(vs, n - 1) then Captured(vs, times, n - 1) + [RowAt(vs, times, n - 1)]
    else Captured(vs, times, n - 1)
  }

  /** The last change below `n`. */
  function Since(vs: seq<Vectors>, n: nat): nat
    requires n <= |vs|
  {
    if n == 0 then 0 else if Changes(vs, n - 1) then n - 1 else Since(vs, n - 1)
  }

  /** The last row stands for every step from the last change on; without a row
      everything is still off. */
  lemma {:induction false} LastRow(vs: seq<Vectors>, times: seq<real>, n: nat)
    requires 0 < n <= |vs| <= |times|
    ensures Since(vs, n) < n && vs[Since(vs, n)] == vs[n - 1]
    ensures var rows := Captured(vs, times, n);
            if rows == [] then vs[n - 1] == ALL_OFF
            else rows[|rows| - 1] == RowAt(vs, times, Since(vs, n))
  {
    if n > 1 { LastRow(vs, times, n - 1); }
  }

  lemma {:induction false} HeldSince(vs: seq<Vectors>, n: nat, k: nat)
    requires 0 < n <= |vs| && Since(vs, n) <= k < n
    ensures vs[k] == vs[n - 1]
  {
    if k < n - 1 { HeldSince(vs, n - 1, k); }
  }

  /** A change-triggered stream never repeats a row: its levels change. */
  lemma {:induction false} StreamHasNoRepeats(vs: seq<Vectors>, times: seq<real>, n: nat)
    requires n <= |vs| <= |times|
    ensures R.NoRepeats(Captured(vs, times, n))
  {
    if n > 0 {
      StreamHasNoRepeats(vs, times, n - 1);
      if n > 1 { LastRow(vs, times, n - 1); }
    }
  }

  // ------------------------------------------------------------ drivers

  function LegInputs(ins: seq<Inputs>, leg: Leg): (one: seq<D.Input>)
    ensures |one| == |ins|
    ensures forall k :: 0 <= k < |ins| ==> one[k] == ins[k].Of(leg)
  {
    seq(|ins|, k requires 0 <= k < |ins| => ins[k].Of(leg))
  }

  /** The three drivers' outputs, step by step. */
  function Driven(ins: seq<Inputs>, p: D.Params): (vs: seq<Vectors>)
    ensures |vs| == |ins|
  {
    seq(|ins|, k requires 0 <= k < |ins| =>
      Vectors(D.Outputs(LegInputs(ins, A), p)[k],
              D.Outputs(LegInputs(ins, B), p)[k],
              D.Outputs(LegInputs(ins, C), p)[k]))
  }

  /** The times of `n` steps. */
  function Ticks(n: nat, tick: real): (times: seq<real>)
    ensures |times| == n
  {
    seq(n, k => k as real * tick)
  }

  function Stream(ins: seq<Inputs>, p: D.Params, tick: real): seq<R.Row> {
    Captured(Driven(ins, p), Ticks(|ins|, tick), |ins|)
  }

  /** The mode of one leg after `k` steps. */
  function ModeAt(ins: seq<Inputs>, p: D.Params, leg: Leg, k: nat): D.Mode
    requires k <= |ins|
  {
    D.Run(LegInputs(ins, leg)[..k], p).mode
  }

  lemma DrivenAt(ins: seq<Inputs>, p: D.Params, leg: Leg, k: nat)
    requires k < |ins|
    ensures Driven(ins, p)[k].Of(leg) == D.Vector(ModeAt(ins, p, leg, k))
  {
    D.OutputAt(LegInputs(ins, leg), p, k);
  }

  lemma {:induction false} AgeGrows(ins: seq<D.Input>, p: D.Params, from: nat, k: nat)
    requires from <= k <= |ins|
    requires forall j :: from <= j <= k ==> D.Run(ins[..j], p).mode == D.Run(ins[..from], p).mode
    ensures D.Age(ins[..k], p) >= k - from
    decreases k
  {
    if k > from {
      AgeGrows(ins, p, from, k - 1);
      assert ins[..k][..k - 1] == ins[..k - 1];
      assert D.Run(ins[..k - 1], p).mode == D.Run(ins[..k], p).mode;
    }
  }

  /** A dead vector cannot stay on a leg for longer than the dead time allows,
      whatever the inputs. */
  lemma DeadVectorIsShort(ins: seq<Inputs>, p: D.Params, leg: Leg, from: nat, to: nat)
    requires from < to <= |ins|
    requires R.IsDead(Driven(ins, p)[from].Of(leg))
    requires forall k :: from <= k < to ==> Driven(ins, p)[k].Of(leg) == Driven(ins, p)[from].Of(leg)
    ensures to - from <= D.DeadSteps(p) + 1
  {
    var one := LegInputs(ins, leg);
    forall k | from <= k < to
      ensures D.Run(one[..k], p).mode == D.Run(one[..from], p).mode && D.Dead(D.Run(one[..k], p).mode)
    {
      DrivenAt(ins, p, leg, from);
      DrivenAt(ins, p, leg, k);
      assert Driven(ins, p)[k].Of(leg) == Driven(ins, p)[from].Of(leg);
    }
    AgeGrows(one, p, from, to - 1);
    D.DeadIsShort(one[..to - 1], p);
  }

  lemma TicksApart(n: nat, tick: real, i: nat, j: nat)
    requires i <= j < n
    ensures Ticks(n, tick)[j] - Ticks(n, tick)[i] == (j - i) as real * tick
  {}

  lemma FewerTicks(m: nat, n: nat, tick: real)
    requires tick > 0.0 && m <= n
    ensures 0.0 <= m as real * tick <= n as real * tick
  {}

  /** The repair's limit reaches over one dead stay of the driver. */
  predicate Covers(dead: real, p: D.Params, tick: real) {
    tick > 0.0 && dead * R.HOLD_TOL >= (D.DeadSteps(p) + 1) as real * tick
  }

  lemma ShortStayFits(dead: real, p: D.Params, tick: real, n: nat, i: nat, j: nat)
    requires Covers(dead, p, tick) && i <= j < n && j - i <= D.DeadSteps(p) + 1
    ensures Ticks(n, tick)[j] - Ticks(n, tick)[i] <= dead * R.HOLD_TOL
  {
    TicksApart(n, tick, i, j);
    var d := j - i;
    FewerTicks(d, D.DeadSteps(p) + 1, tick);
    assert Ticks(n, tick)[j] - Ticks(n, tick)[i] == d as real * tick;
    assert d as real * tick <= (D.DeadSteps(p) + 1) as real * tick;
  }

  lemma OneMoreRow(rows: seq<R.Row>, r: R.Row, leg: Leg, dead: real, i: int)
    requires !R.Overlong(rows, leg, i, dead)
    requires rows != [] && R.IsDead(rows[|rows| - 1].Of(leg)) ==> r.t - rows[|rows| - 1].t <= dead * R.HOLD_TOL
    ensures !R.Overlong(rows + [r], leg, i, dead)
  {}

  /** The repair finds nothing over-long in a genuine stream as soon as its limit
      covers one dead stay of the driver. */
  lemma {:induction false} StreamIsSettled(ins: seq<Inputs>, p: D.Params, tick: real, leg: Leg, n: nat, i: int,
                                           dead: real)
    requires Covers(dead, p, tick)
    requires n <= |ins|
    ensures !R.Overlong(Captured(Driven(ins, p), Ticks(|ins|, tick), n), leg, i, dead)
  {
    if n > 0 {
      var vs := Driven(ins, p);
      var times := Ticks(|ins|, tick);
      StreamIsSettled(ins, p, tick, leg, n - 1, i, dead);
      if Changes(vs, n - 1) {
        if n > 1 { LastGap(ins, p, tick, leg, n - 1, dead); }
        OneMoreRow(Captured(vs, times, n - 1), RowAt(vs, times, n - 1), leg, dead, i);
      }
    }
  }

  lemma DeadSinceIsShort(ins: seq<Inputs>, p: D.Params, leg: Leg, n: nat)
    requires 0 < n <= |ins| && Since(Driven(ins, p), n) < n
    requires R.IsDead(Driven(ins, p)[Since(Driven(ins, p), n)].Of(leg))
    ensures n - Since(Driven(ins, p), n) <= D.DeadSteps(p) + 1
  {
    var vs, from := Driven(ins, p), Since(Driven(ins, p), n);
    forall k | from <= k < n
      ensures vs[k].Of(leg) == vs[from].Of(leg)
    {
      HeldSince(vs, n, k);
      HeldSince(vs, n, from);
    }
    DeadVectorIsShort(ins, p, leg, from, n);
  }

  /** A dead level of the last row is not yet older than the limit. */
  lemma LastGap(ins: seq<Inputs>, p: D.Params, tick: real, leg: Leg, n: nat, dead: real)
    requires Covers(dead, p, tick)
    requires 0 < n < |ins|
    ensures var rows := Captured(Driven(ins, p), Ticks(|ins|, tick), n);
            rows != [] && R.IsDead(rows[|rows| - 1].Of(leg)) ==>
              Ticks(|ins|, tick)[n] - rows[|rows| - 1].t <= dead * R.HOLD_TOL
  {
    var vs, times := Driven(ins, p), Ticks(|ins|, tick);
    var from := Since(vs, n);
    LastRow(vs, times, n);
    var r := RowAt(vs, times, from);
    if R.IsDead(r.Of(leg)) {
      assert r.Of(leg) == vs[from].Of(leg);
      DeadSinceIsShort(ins, p, leg, n);
      ShortStayFits(dead, p, tick, |ins|, from, n);
    }
  }

  /** The repair is the identity on genuine driver streams. */
  lemma GenuineStreamUntouched(ins: seq<Inputs>, p: D.Params, tick: real, dead: real)
    requires Covers(dead, p, tick)
    ensures var rows := Stream(ins, p, tick);
      && R.Repaired(rows, dead) == rows
      && R.Dedup(rows) == rows && R.Inserted(rows, dead) == 0
  {
    var rows := Stream(ins, p, tick);
    StreamHasNoRepeats(Driven(ins, p), Ticks(|ins|, tick), |ins|);
    forall leg, j
      ensures !R.Overlong(rows, leg, j, dead)
    {
      StreamIsSettled(ins, p, tick, leg, |ins|, j, dead);
    }
    R.CleanStreamUnchanged(rows, dead);
  }

  // ------------------------------------------------------------ the estimate

  ghost predicate Enabled(ins: seq<Inputs>) {
    forall k, leg :: 0 <= k < |ins| ==> ins[k].Of(leg).en
  }

  /** A completed dead stay in the outputs is a stay of the driver, so it lasts
      exactly the dead time and one step. */
  lemma DrivenDwell(ins: seq<Inputs>, p: D.Params, leg: Leg, from: nat, to: nat)
    requires Enabled(ins) && from < to < |ins|
    requires R.IsDead(Driven(ins, p)[from].Of(leg))
    requires from > 0 ==> Driven(ins, p)[from - 1].Of(leg) != Driven(ins, p)[from].Of(leg)
    requires forall k :: from <= k < to ==> Driven(ins, p)[k].Of(leg) == Driven(ins, p)[from].Of(leg)
    requires Driven(ins, p)[to].Of(leg) != Driven(ins, p)[from].Of(leg)
    ensures to - from == D.DeadSteps(p) + 1
  {
    var one := LegInputs(ins, leg);
    forall k | from <= k <= to || k == from - 1 >= 0
      ensures Driven(ins, p)[k].Of(leg) == D.Vector(D.Run(one[..k], p).mode)
    {
      DrivenAt(ins, p, leg, k);
    }
    forall k | from <= k < to
      ensures D.Run(one[..k], p).mode == D.Run(one[..from], p).mode
    {
      assert Driven(ins, p)[k].Of(leg) == Driven(ins, p)[from].Of(leg);
    }
    assert D.Stay(one, p, from, to);
    D.ExactDwell(one, p, from, to);
  }

  /** The step at which a leg took the level it has at step `n - 1`. */
  function LegSince(vs: seq<Vectors>, leg: Leg, n: nat): (from: nat)
    requires 0 < n <= |vs|
    ensures from < n
  {
    if n == 1 then 0
    else if vs[n - 1].Of(leg) != vs[n - 2].Of(leg) then n - 1
    else LegSince(vs, leg, n - 1)
  }

  lemma {:induction false} LegHeldSince(vs: seq<Vectors>, leg: Leg, n: nat)
    requires 0 < n <= |vs|
    ensures var from := LegSince(vs, leg, n);
      && (forall k :: from <= k < n ==> vs[k].Of(leg) == vs[n - 1].Of(leg))
      && (from > 0 ==> vs[from - 1].Of(leg) != vs[from].Of(leg))
  {
    if n > 1 { LegHeldSince(vs, leg, n - 1); }
  }

  lemma {:induction false} StayStartOfMore(rows: seq<R.Row>, r: R.Row, leg: Leg, k: nat)
    requires k < |rows|
    ensures R.StayStart(rows + [r], leg, k) == R.StayStart(rows, leg, k)
  {
    if k > 0 { StayStartOfMore(rows, r, leg, k - 1); }
  }

  lemma {:induction false} StaysOfMore(rows: seq<R.Row>, r: R.Row, leg: Leg, n: nat)
    requires n <= |rows|
    ensures R.DeadStays(rows + [r], leg, n) == R.DeadStays(rows, leg, n)
  {
    if n >= 2 {
      StaysOfMore(rows, r, leg, n - 1);
      StayStartOfMore(rows, r, leg, n - 2);
    }
  }

  /** When the present stay of a leg began. */
  function StayTime(rows: seq<R.Row>, leg: Leg): real
    requires rows != []
  {
    rows[R.StayStart(rows, leg, |rows| - 1)].t
  }

  lemma StayTimeOfMore(rows: seq<R.Row>, r: R.Row, leg: Leg)
    ensures StayTime(rows + [r], leg)
         == if rows == [] || rows[|rows| - 1].Of(leg) != r.Of(leg) then r.t else StayTime(rows, leg)
  {
    if rows != [] { StayStartOfMore(rows, r, leg, |rows| - 1); }
  }

  /** The first row of a leg's present stay carries the step it began at. */
  ghost predicate StayStamped(vs: seq<Vectors>, times: seq<real>, leg: Leg, n: nat)
    requires 0 < n <= |vs| <= |times|
  {
    var rows := Captured(vs, times, n);
    R.IsDead(vs[n - 1].Of(leg)) ==>
      && rows != []
      && StayTime(rows, leg) == times[LegSince(vs, leg, n)]
  }

  lemma StampedStep(vs: seq<Vectors>, times: seq<real>, leg: Leg, n: nat)
    requires 0 < n < |vs| <= |times| && StayStamped(vs, times, leg, n)
    ensures StayStamped(vs, times, leg, n + 1)
  {
    if R.IsDead(vs[n].Of(leg)) && Changes(vs, n) {
      LastRow(vs, times, n);
      StayTimeOfMore(Captured(vs, times, n), RowAt(vs, times, n), leg);
    }
  }

  lemma {:induction false} Stamped(vs: seq<Vectors>, times: seq<real>, leg: Leg, n: nat)
    requires 0 < n <= |vs| <= |times| && vs[0] == ALL_OFF
    ensures StayStamped(vs, times, leg, n)
  {
    if n > 1 {
      Stamped(vs, times, leg, n - 1);
      StampedStep(vs, times, leg, n - 1);
    }
  }

  /** Every measured stay has the same length. */
  ghost predicate AllExact(rows: seq<R.Row>, leg: Leg, stay: real) {
    forall x :: x in R.DeadStays(rows, leg, |rows|) ==> x == stay
  }

  lemma ExactOfMore(rows: seq<R.Row>, r: R.Row, leg: Leg, stay: real)
    requires AllExact(rows, leg, stay)
    requires rows != [] && R.IsDead(rows[|rows| - 1].Of(leg)) && r.Of(leg) != rows[|rows| - 1].Of(leg) ==>
               r.t - StayTime(rows, leg) == stay
    ensures AllExact(rows + [r], leg, stay)
  {
    StaysOfMore(rows, r, leg, |rows|);
    if rows != [] { StayStartOfMore(rows, r, leg, |rows| - 1); }
  }

  /** A change at step `n` that ends a dead stay of a leg ends one of exactly the
      dead time and one step. */
  lemma EndedStay(ins: seq<Inputs>, p: D.Params, tick: real, leg: Leg, n: nat)
    requires Enabled(ins) && tick > 0.0 && 0 < n < |ins|
    requires R.IsDead(Driven(ins, p)[n - 1].Of(leg))
    requires Driven(ins, p)[n].Of(leg) != Driven(ins, p)[n - 1].Of(leg)
    ensures var rows := Captured(Driven(ins, p), Ticks(|ins|, tick), n);
      && rows != []
      && Ticks(|ins|, tick)[n] - StayTime(rows, leg) == (D.DeadSteps(p) + 1) as real * tick
  {
    var vs := Driven(ins, p);
    StartsOff(ins, p);
    Stamped(vs, Ticks(|ins|, tick), leg, n);
    LegHeldSince(vs, leg, n);
    DrivenDwell(ins, p, leg, LegSince(vs, leg, n), n);
    TicksApart(|ins|, tick, LegSince(vs, leg, n), n);
  }

  lemma StartsOff(ins: seq<Inputs>, p: D.Params)
    requires ins != []
    ensures Driven(ins, p)[0] == ALL_OFF
  {
    DrivenAt(ins, p, A, 0);
    DrivenAt(ins, p, B, 0);
    DrivenAt(ins, p, C, 0);
  }

  lemma {:induction false} StaysAreExact(ins: seq<Inputs>, p: D.Params, tick: real, leg: Leg, n: nat)
    requires Enabled(ins) && tick > 0.0 && n <= |ins|
    ensures AllExact(Captured(Driven(ins, p), Ticks(|ins|, tick), n), leg, (D.DeadSteps(p) + 1) as real * tick)
  {
    if n > 0 {
      var vs, times := Driven(ins, p), Ticks(|ins|, tick);
      StaysAreExact(ins, p, tick, leg, n - 1);
      if Changes(vs, n - 1) {
        var rows, r := Captured(vs, times, n - 1), RowAt(vs, times, n - 1);
        if rows != [] {
          LastRow(vs, times, n - 1);
          assert rows[|rows| - 1].Of(leg) == vs[n - 2].Of(leg) && r.Of(leg) == vs[n - 1].Of(leg);
          if R.IsDead(vs[n - 2].Of(leg)) && vs[n - 1].Of(leg) != vs[n - 2].Of(leg) {
            EndedStay(ins, p, tick, leg, n - 1);
          }
        }
        ExactOfMore(rows, r, leg, (D.DeadSteps(p) + 1) as real * tick);
      }
    }
  }

  /** On a genuine enabled stream the estimate is exact. */
  lemma EstimateIsExact(ins: seq<Inputs>, p: D.Params, tick: real)
    requires Enabled(ins) && tick > 0.0
    ensures var rows := Stream(ins, p, tick);
            R.Estimate(rows) == if R.AllDeadStays(rows) == [] then R.DEAD_TIME_FALLBACK
                                else (D.DeadSteps(p) + 1) as real * tick
  {
    var rows := Stream(ins, p, tick);
    StaysAreExact(ins, p, tick, A, |ins|);
    StaysAreExact(ins, p, tick, B, |ins|);
    StaysAreExact(ins, p, tick, C, |ins|);
    if R.AllDeadStays(rows) != [] {
      R.MedianOfEqual(R.AllDeadStays(rows), (D.DeadSteps(p) + 1) as real * tick);
    }
  }

  /** The repair with its own estimate leaves genuine enabled streams alone, as
      soon as one dead stay completes in the stream or the fallback covers one. */
  lemma DefaultRepairUntouched(ins: seq<Inputs>, p: D.Params, tick: real)
    requires Enabled(ins) && tick > 0.0
    requires var rows := Stream(ins, p, tick);
      || R.AllDeadStays(rows) != []
      || R.DEAD_TIME_FALLBACK * R.HOLD_TOL >= (D.DeadSteps(p) + 1) as real * tick
    ensures var rows := Stream(ins, p, tick);
            R.Repaired(rows, R.DeadTimeFor(R.Dedup(rows), None)) == rows
  {
    var rows := Stream(ins, p, tick);
    EstimateIsExact(ins, p, tick);
    var stay := (D.DeadSteps(p) + 1) as real * tick;
    FewerTicks(0, D.DeadSteps(p) + 1, tick);
    assert stay * R.HOLD_TOL >= stay;
    GenuineStreamUntouched(ins, p, tick, R.Estimate(rows));
  }

  // ------------------------------------------------------------ the limit is exact

  /** One leg's inputs on all three legs. */
  function Together(one: seq<D.Input>): seq<Inputs> {
    seq(|one|, k requires 0 <= k < |one| => Inputs(one[k], one[k], one[k]))
  }

  /** Walks back to the step at which a dead mode was entered. */
  lemma DeadEntry(one: seq<D.Input>, p: D.Params, lo: nat, k: nat) returns (from: nat)
    requires lo < k <= |one| && D.Run(one[..lo], p).mode == D.Zero
    requires D.Run(one[..k], p).mode == D.PosDead
    ensures lo < from <= k
    ensures D.Run(one[..from - 1], p).mode != D.PosDead
    ensures forall j :: from <= j <= k ==> D.Run(one[..j], p).mode == D.PosDead
    decreases k
  {
    if lo == k - 1 || D.Run(one[..k - 1], p).mode != D.PosDead {
      from := k;
    } else {
      from := DeadEntry(one, p, lo, k - 1);
    }
  }

  lemma DeadBeforePositive(one: seq<D.Input>, p: D.Params, hi: nat)
    requires 0 < hi <= |one|
    requires D.Run(one[..hi - 1], p).mode != D.Pos && D.Run(one[..hi], p).mode == D.Pos
    ensures D.Run(one[..hi - 1], p).mode == D.PosDead
  {
    D.LastStep(one[..hi - 1], one[hi - 1], p);
    assert one[..hi] == one[..hi - 1] + [one[hi - 1]];
  }

  /** Between a zero level and a positive one there is a dead stay. */
  lemma DeadStayBetween(one: seq<D.Input>, p: D.Params, lo: nat, hi: nat) returns (from: nat, to: nat)
    requires lo < hi <= |one|
    requires D.Run(one[..lo], p).mode == D.Zero && D.Run(one[..hi], p).mode == D.Pos
    requires forall k :: lo <= k < hi ==> one[k].en
    ensures lo < from < to <= hi && D.Stay(one, p, from, to) && D.Run(one[..from], p).mode == D.PosDead
    decreases hi
  {
    if D.Run(one[..hi - 1], p).mode == D.Pos {
      from, to := DeadStayBetween(one, p, lo, hi - 1);
    } else {
      DeadBeforePositive(one, p, hi);
      from := DeadEntry(one, p, lo, hi - 1);
      to := hi;
    }
  }

  /** Some enabled run of a driver has a dead stay. */
  lemma SomeDeadStay(p: D.Params) returns (one: seq<D.Input>, from: nat, to: nat)
    ensures 0 < from < to <= |one| && D.Stay(one, p, from, to) && D.Run(one[..from], p).mode == D.PosDead
  {
    var start := D.ReachZero(p);
    var more := seq(D.ResponseBound(p), _ => D.Input(1, true, false));
    D.BoundedResponse(start, more, p, 1);
    one := start + more;
    assert one[..|start|] == start && one[..|one|] == one;
    from, to := DeadStayBetween(one, p, |start|, |one|);
  }

  /** While one run drives all legs, the vectors change only with its mode. */
  lemma DrivenTogether(one: seq<D.Input>, p: D.Params, k: nat)
    requires k < |one|
    ensures var v := D.Vector(D.Run(one[..k], p).mode);
            Driven(Together(one), p)[k] == Vectors(v, v, v)
  {
    var ins := Together(one);
    forall leg
      ensures LegInputs(ins, leg) == one
    {}
    DrivenAt(ins, p, A, k);
    DrivenAt(ins, p, B, k);
    DrivenAt(ins, p, C, k);
  }

  lemma {:induction false} NoChangeSince(vs: seq<Vectors>, from: nat, n: nat)
    requires from < n <= |vs| && Changes(vs, from)
    requires forall k :: from < k < n ==> !Changes(vs, k)
    ensures Since(vs, n) == from
  {
    if n - 1 > from {
      NoChangeSince(vs, from, n - 1);
      assert !Changes(vs, n - 1);
    }
  }

  /** The rows before and after a dead stay are one stay apart. */
  lemma StayMakesRows(vs: seq<Vectors>, times: seq<real>, from: nat, to: nat)
    requires |vs| <= |times| && from < to < |vs|
    requires Changes(vs, from) && Changes(vs, to)
    requires forall k :: from < k < to ==> !Changes(vs, k)
    ensures var rows := Captured(vs, times, to + 1);
      && |rows| >= 2
      && rows[|rows| - 2] == RowAt(vs, times, from) && rows[|rows| - 1] == RowAt(vs, times, to)
  {
    NoChangeSince(vs, from, to);
    LastRow(vs, times, to);
    SomeRow(vs, times, from, to);
  }

  lemma {:induction false} SomeRow(vs: seq<Vectors>, times: seq<real>, k: nat, n: nat)
    requires k < n <= |vs| <= |times| && Changes(vs, k)
    ensures Captured(vs, times, n) != []
  {
    if n - 1 > k { SomeRow(vs, times, k, n - 1); }
  }

  lemma StayIsOverlong(vs: seq<Vectors>, times: seq<real>, from: nat, to: nat, dead: real)
    requires |times| >= |vs| == to + 1 && from < to
    requires Changes(vs, from) && Changes(vs, to) && R.IsDead(vs[from].a)
    requires forall k :: from < k < to ==> !Changes(vs, k)
    requires times[to] - times[from] > dead * R.HOLD_TOL
    ensures |Captured(vs, times, |vs|)| >= 2
    ensures R.Overlong(Captured(vs, times, |vs|), A, |Captured(vs, times, |vs|)| - 2, dead)
  {
    StayMakesRows(vs, times, from, to);
  }

  /** One vector on all three legs. */
  function Alike(v: int): Vectors { Vectors(v, v, v) }

  /** A limit below one dead stay makes the repair cut a genuine stream. */
  lemma ShortLimitCutsStream(p: D.Params, tick: real, dead: real) returns (ins: seq<Inputs>, i: nat)
    requires tick > 0.0 && !Covers(dead, p, tick)
    ensures R.Overlong(Stream(ins, p, tick), A, i, dead)
  {
    var one, from, to := SomeDeadStay(p);
    D.ExactDwell(one, p, from, to);
    var cut := one[..to] + [D.Input(0, true, false)];
    ins := Together(cut);
    var vs, times := Driven(ins, p), Ticks(|ins|, tick);
    forall k | 0 <= k <= to
      ensures vs[k] == Alike(D.Vector(D.Run(one[..k], p).mode))
    {
      DrivenTogether(cut, p, k);
      assert cut[..k] == one[..k];
    }
    TicksApart(|ins|, tick, from, to);
    StayIsOverlong(vs, times, from, to, dead);
    i := |Stream(ins, p, tick)| - 2;
  }

  /** The repair finds nothing in any genuine stream exactly when its limit covers
      one dead stay. */
  lemma UntouchedExactly(p: D.Params, tick: real, dead: real)
    requires tick > 0.0
    ensures (forall ins, leg, i :: !R.Overlong(Stream(ins, p, tick), leg, i, dead)) <==> Covers(dead, p, tick)
  {
    if Covers(dead, p, tick) {
      forall ins: seq<Inputs>, leg, i
        ensures !R.Overlong(Stream(ins, p, tick), leg, i, dead)
      {
        StreamIsSettled(ins, p, tick, leg, |ins|, i, dead);
      }
    } else {
      var ins, i := ShortLimitCutsStream(p, tick, dead);
    }
  }

  lemma {:induction false} CapturedIsSorted(vs: seq<Vectors>, times: seq<real>, n: nat)
    requires n <= |vs| <= |times| && forall i, j :: 0 <= i <= j < |times| ==> times[i] <= times[j]
    ensures var rows := Captured(vs, times, n);
            R.Sorted(rows) && (rows != [] ==> n > 0 && rows[|rows| - 1].t <= times[n - 1])
  {
    if n > 0 { CapturedIsSorted(vs, times, n - 1); }
  }

  lemma StreamIsSorted(ins: seq<Inputs>, p: D.Params, tick: real)
    requires tick > 0.0
    ensures R.Sorted(Stream(ins, p, tick))
  {
    var times := Ticks(|ins|, tick);
    forall i, j | 0 <= i <= j < |times|
      ensures times[i] <= times[j]
    {
      FewerTicks(i, j, tick);
    }
    CapturedIsSorted(Driven(ins, p), times, |ins|);
  }

  /** The repair is the identity on every genuine stream exactly when its limit
      covers one dead stay. */
  lemma RepairIsIdentityExactly(p: D.Params, tick: real, dead: real)
    requires tick > 0.0 && dead >= 0.0
    ensures (forall ins :: R.Repaired(Stream(ins, p, tick), dead) == Stream(ins, p, tick)) <==> Covers(dead, p, tick)
  {
    if Covers(dead, p, tick) {
      forall ins: seq<Inputs>
        ensures R.Repaired(Stream(ins, p, tick), dead) == Stream(ins, p, tick)
      {
        GenuineStreamUntouched(ins, p, tick, dead);
      }
    } else {
      var ins, i := ShortLimitCutsStream(p, tick, dead);
      StreamIsSorted(ins, p, tick);
      R.UnchangedExactly(Stream(ins, p, tick), dead);
    }
  }
}
