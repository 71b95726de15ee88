/** The triangular PWM carrier of the two full-stack mocks and the voltage it
    delivers. One mock latches the references at both carrier edges, the other
    at the valley only; everything else is shared. */
module Carrier {
  import opened Arith
  import opened Legs

  datatype Refs = Refs(a: int, b: int, c: int) {
    function Of(leg: Leg): int {
      match leg
      case A => a
      case B => b
      case C => c
    }
  }

  datatype Pwm = Pwm(carrier: int, up: bool, ref: Refs, lat: Refs)

  predicate AtPeak(p: Pwm, cmax: int) { p.up && p.carrier >= cmax - 1 }
  predicate AtValley(p: Pwm) { !p.up && p.carrier == 0 }

  /** One clock of the carrier; `both` selects the latching variant. */
  function Step(p: Pwm, cmax: int, both: bool): Pwm {
    var edge := (both && AtPeak(p, cmax)) || AtValley(p);
    Pwm(if AtPeak(p, cmax) || AtValley(p) then p.carrier
        else if p.up then p.carrier + 1 else p.carrier - 1,
        if p.up then !AtPeak(p, cmax) else AtValley(p),
        p.ref,
        if edge then p.ref else p.lat)
  }

  function AbsSat(x: int, max: int): int {
    var v := if x < 0 then -x else x;
    if v > max then max else v
  }

  /** The three-level state a leg asks for. */
  function NpcState(ref: int, carrier: int, cmax: int): int {
    if AbsSat(ref, cmax) > carrier then (if ref < 0 then -1 else 1) else 0
  }

  /** The carrier record, updated in place. */
  class MockPwm {
    var carrier: int
    var up: bool
    var ref: Refs
    var lat: Refs

    ghost function State(): Pwm
      reads this
    {
      Pwm(carrier, up, ref, lat)
    }

    /** Reset and advance to a given phase; nothing is latched on the way. Below
        one the carrier rests at zero, as it does for a height of one. */
    constructor (phase: nat, cmax: int)
      ensures State() == Start(phase, if cmax < 1 then 1 else cmax)
    {
      carrier, up, ref, lat := 0, true, Refs(0, 0, 0), Refs(0, 0, 0);
      new;
      ghost var height := if cmax < 1 then 1 else cmax;
      for i := 0 to phase
        invariant State() == Start(i, height)
      {
        NextOnTriangle(State(), i, height, false);
        if up {
          if carrier >= cmax - 1 { up := false; } else { carrier := carrier + 1; }
        } else {
          if carrier == 0 { up := true; } else { carrier := carrier - 1; }
        }
      }
    }

    /** One clock, latching the references at peak and valley. */
    method StepBothEdges(cmax: int) returns (valley: bool)
      modifies this
      ensures State() == Step(old(State()), cmax, true)
      ensures valley <==> AtValley(old(State()))
    {
      var refEdge := false;
      valley := false;
      if up {
        if carrier >= cmax - 1 { up, refEdge := false, true; } else { carrier := carrier + 1; }
      } else {
        if carrier == 0 { up, valley, refEdge := true, true, true; } else { carrier := carrier - 1; }
      }
      if refEdge { lat := ref; }
    }

    /** One clock, latching the references at the valley only. */
    method StepValleyOnly(cmax: int) returns (valley: bool)
      modifies this
      ensures State() == Step(old(State()), cmax, false)
      ensures valley <==> AtValley(old(State()))
    {
      valley := false;
      if up {
        if carrier >= cmax - 1 { up := false; } else { carrier := carrier + 1; }
      } else {
        if carrier == 0 { up, valley := true, true; } else { carrier := carrier - 1; }
      }
      if valley { lat := ref; }
    }
  }

  // ------------------------------------------------------------ closed form

  /** The carrier after `n` clocks from reset: a triangle of period 2 cmax that
      rests one clock on each of its ends. */
  function Triangle(n: nat, cmax: int): int
    requires 1 <= cmax
  {
    var q := n % (2 * cmax);
    if q < cmax then q else 2 * cmax - 1 - q
  }

  predicate Rising(n: nat, cmax: int)
    requires 1 <= cmax
  {
    n % (2 * cmax) < cmax
  }

  function Start(phase: nat, cmax: int): Pwm
    requires 1 <= cmax
  {
    Pwm(Triangle(phase, cmax), Rising(phase, cmax), Refs(0, 0, 0), Refs(0, 0, 0))
  }

  /** `p` is where the closed form puts it at time `n`. */
  predicate At(p: Pwm, n: nat, cmax: int)
    requires 1 <= cmax
  {
    p.carrier == Triangle(n, cmax) && p.up == Rising(n, cmax)
  }

  lemma NextOnTriangle(p: Pwm, n: nat, cmax: int, both: bool)
    requires 1 <= cmax && At(p, n, cmax)
    ensures At(Step(p, cmax, both), n + 1, cmax)
  {
    NextModulo(n, 2 * cmax);
  }

  /** Position `j` within half period `h`: upwards in even halves, downwards in
      odd ones, so each half visits every level below cmax exactly once. */
  predicate InHalf(p: Pwm, h: nat, j: int, cmax: int) {
    && 0 <= j < cmax
    && p.carrier == (if h % 2 == 0 then j else cmax - 1 - j)
    && (p.up <==> h % 2 == 0)
  }

  lemma HalvesOfTriangle(p: Pwm, h: nat, j: int, cmax: int)
    requires 0 <= j < cmax
    ensures cmax * h + j >= 0
    ensures At(p, cmax * h + j, cmax) <==> InHalf(p, h, j, cmax)
  {
    var n := cmax * h + j;
    assert cmax * h >= 0;
    if h % 2 == 0 {
      assert n == (2 * cmax) * (h / 2) + j by { assert h == 2 * (h / 2); }
      DivModUnique(n, 2 * cmax, h / 2, j);
    } else {
      assert n == (2 * cmax) * (h / 2) + (cmax + j) by { assert h == 2 * (h / 2) + 1; }
      DivModUnique(n, 2 * cmax, h / 2, cmax + j);
    }
  }

  /** Within a half nothing is latched; its last clock opens the next half. */
  lemma StepInHalf(p: Pwm, h: nat, j: int, cmax: int, both: bool)
    requires InHalf(p, h, j, cmax)
    ensures var q := Step(p, cmax, both);
            if j < cmax - 1 then InHalf(q, h, j + 1, cmax) && q.lat == p.lat
            else InHalf(q, h + 1, 0, cmax) && q.lat == Latched(p, h + 1, p.ref, both)
  {}

  // ------------------------------------------------------------ volt-seconds

  /** The state after a run of clocks; `refs[k]` is the reference in force at
      clock `k`. */
  function Drive(p: Pwm, refs: seq<Refs>, cmax: int, both: bool): Pwm
    decreases |refs|
  {
    if refs == [] then p
    else
      var q := Drive(p, refs[..|refs| - 1], cmax, both);
      Step(q.(ref := refs[|refs| - 1]), cmax, both)
  }

  /** What a leg's state sums to over a run. */
  function Total(p: Pwm, refs: seq<Refs>, cmax: int, both: bool, leg: Leg): int
    decreases |refs|
  {
    if refs == [] then 0
    else
      var q := Drive(p, refs, cmax, both);
      Total(p, refs[..|refs| - 1], cmax, both, leg) + NpcState(q.lat.Of(leg), q.carrier, cmax)
  }

  function Clamp(r: int, cmax: int): int {
    if r > cmax then cmax else if r < -cmax then -cmax else r
  }

  lemma {:induction false} RunsCompose(p: Pwm, x: seq<Refs>, y: seq<Refs>, cmax: int, both: bool, leg: Leg)
    ensures Drive(p, x + y, cmax, both) == Drive(Drive(p, x, cmax, both), y, cmax, both)
    ensures Total(p, x + y, cmax, both, leg)
         == Total(p, x, cmax, both, leg) + Total(Drive(p, x, cmax, both), y, cmax, both, leg)
    decreases |y|
  {
    if y == [] {
      assert x + y == x;
    } else {
      assert (x + y)[..|x + y| - 1] == x + y[..|y| - 1];
      RunsCompose(p, x, y[..|y| - 1], cmax, both, leg);
    }
  }

  /** The sum of a constant reference's states over the `n` lowest carrier
      levels. */
  function LevelSum(r: int, n: nat, cmax: int): int {
    if n == 0 then 0 else LevelSum(r, n - 1, cmax) + NpcState(r, n - 1, cmax)
  }

  lemma {:induction false} LevelSumIsClamp(r: int, n: nat, cmax: int)
    requires n <= cmax
    ensures LevelSum(r, n, cmax) == Clamp(r, n)
  {
    if n > 0 {
      LevelSumIsClamp(r, n - 1, cmax);
    }
  }

  /** What one half period latches at its opening edge. */
  function Latched(p: Pwm, h: nat, ref: Refs, both: bool): Refs {
    if both || h % 2 == 0 then ref else p.lat
  }

  /** The clocks of half period `h + 1` up to its position `j` see one latched
      reference. */
  lemma {:induction false} IntoHalf(p: Pwm, h: nat, refs: seq<Refs>, cmax: int, both: bool)
    requires 1 <= |refs| <= cmax
    requires InHalf(p, h, cmax - 1, cmax)
    ensures var q := Drive(p, refs, cmax, both);
            InHalf(q, h + 1, |refs| - 1, cmax) && q.lat == Latched(p, h + 1, refs[0], both)
    decreases |refs|
  {
    var m := |refs|;
    var before := refs[..m - 1];
    if m > 1 {
      IntoHalf(p, h, before, cmax, both);
      StepInHalf(Drive(p, before, cmax, both).(ref := refs[m - 1]), h + 1, m - 2, cmax, both);
    } else {
      StepInHalf(p.(ref := refs[0]), h, cmax - 1, cmax, both);
    }
  }

  /** The states met so far in a half: the levels from the bottom or from the
      top. */
  function HalfSum(r: int, rising: bool, m: nat, cmax: int): int
    requires m <= cmax
  {
    if rising then LevelSum(r, m, cmax) else LevelSum(r, cmax, cmax) - LevelSum(r, cmax - m, cmax)
  }

  lemma {:induction false} TotalIntoHalf(p: Pwm, h: nat, refs: seq<Refs>, cmax: int, both: bool, leg: Leg)
    requires 1 <= |refs| <= cmax
    requires InHalf(p, h, cmax - 1, cmax)
    ensures Total(p, refs, cmax, both, leg)
         == HalfSum(Latched(p, h + 1, refs[0], both).Of(leg), (h + 1) % 2 == 0, |refs|, cmax)
    decreases |refs|
  {
    IntoHalf(p, h, refs, cmax, both);
    if |refs| > 1 {
      TotalIntoHalf(p, h, refs[..|refs| - 1], cmax, both, leg);
    } else {
      assert refs[..|refs| - 1] == [];
      assert Total(p, refs[..|refs| - 1], cmax, both, leg) == 0;
      assert forall r :: LevelSum(r, 1, cmax) == NpcState(r, 0, cmax);
    }
  }

  /** A whole half period delivers the latched reference, clamped. */
  lemma HalfPeriod(p: Pwm, h: nat, refs: seq<Refs>, cmax: int, both: bool, leg: Leg)
    requires |refs| == cmax >= 1
    requires InHalf(p, h, cmax - 1, cmax)
    ensures var q := Drive(p, refs, cmax, both);
            && InHalf(q, h + 1, cmax - 1, cmax)
            && q.lat == Latched(p, h + 1, refs[0], both)
    ensures Total(p, refs, cmax, both, leg)
         == Clamp(Latched(p, h + 1, refs[0], both).Of(leg), cmax)
  {
    IntoHalf(p, h, refs, cmax, both);
    TotalIntoHalf(p, h, refs, cmax, both, leg);
    LevelSumIsClamp(Latched(p, h + 1, refs[0], both).Of(leg), cmax, cmax);
  }

  /** The sum of the clamped references that head `n` stretches of `length` clocks. */
  function ClampedHeads(refs: seq<Refs>, n: nat, length: nat, cmax: int, leg: Leg): int
    requires length >= 1 && |refs| == length * n
  {
    if n == 0 then 0
    else
      OneMoreMultiple(length, n);
      var k := |refs| - length;
      ClampedHeads(refs[..k], n - 1, length, cmax, leg) + Clamp(refs[k].Of(leg), cmax)
  }

  /** Latching at both edges, any number of half periods delivers the sum of the
      clamped references. */
  lemma {:induction false} HalfPeriods(p: Pwm, h: nat, refs: seq<Refs>, n: nat, cmax: int, leg: Leg)
    requires 1 <= cmax && |refs| == cmax * n
    requires InHalf(p, h, cmax - 1, cmax)
    ensures InHalf(Drive(p, refs, cmax, true), h + n, cmax - 1, cmax)
    ensures Total(p, refs, cmax, true, leg) == ClampedHeads(refs, n, cmax, cmax, leg)
    decreases n
  {
    if n > 0 {
      OneMoreMultiple(cmax, n);
      var k := |refs| - cmax;
      var x, y := refs[..k], refs[k..];
      assert refs == x + y;
      HalfPeriods(p, h, x, n - 1, cmax, leg);
      RunsCompose(p, x, y, cmax, true, leg);
      HalfPeriod(Drive(p, x, cmax, true), h + n - 1, y, cmax, true, leg);
    }
  }

  /** Latching at the valley only, a full period from a valley delivers twice
      the clamped reference. */
  lemma ValleyPeriod(p: Pwm, h: nat, refs: seq<Refs>, cmax: int, leg: Leg)
    requires |refs| == 2 * cmax && 1 <= cmax && h % 2 == 1
    requires InHalf(p, h, cmax - 1, cmax)
    ensures InHalf(Drive(p, refs, cmax, false), h + 2, cmax - 1, cmax)
    ensures Total(p, refs, cmax, false, leg) == 2 * Clamp(refs[0].Of(leg), cmax)
  {
    var x, y := refs[..cmax], refs[cmax..];
    assert refs == x + y;
    HalfPeriod(p, h, x, cmax, false, leg);
    HalfPeriod(Drive(p, x, cmax, false), h + 1, y, cmax, false, leg);
    RunsCompose(p, x, y, cmax, false, leg);
  }

  lemma {:induction false} ValleyPeriods(p: Pwm, h: nat, refs: seq<Refs>, n: nat, cmax: int, leg: Leg)
    requires 1 <= cmax && |refs| == 2 * cmax * n && h % 2 == 1
    requires InHalf(p, h, cmax - 1, cmax)
    ensures InHalf(Drive(p, refs, cmax, false), h + 2 * n, cmax - 1, cmax)
    ensures Total(p, refs, cmax, false, leg) == 2 * ClampedHeads(refs, n, 2 * cmax, cmax, leg)
    decreases n
  {
    if n > 0 {
      OneMoreMultiple(2 * cmax, n);
      var k := |refs| - 2 * cmax;
      var x, y := refs[..k], refs[k..];
      assert refs == x + y;
      ValleyPeriods(p, h, x, n - 1, cmax, leg);
      RunsCompose(p, x, y, cmax, false, leg);
      ValleyPeriod(Drive(p, x, cmax, false), h + 2 * (n - 1), y, cmax, leg);
    }
  }

  /** Before its first latch a leg delivers nothing. */
  lemma {:induction false} Unlatched(p: Pwm, h: nat, j: int, refs: seq<Refs>, cmax: int, both: bool, leg: Leg)
    requires InHalf(p, h, j, cmax) && p.lat == Refs(0, 0, 0) && j + |refs| < cmax
    ensures var q := Drive(p, refs, cmax, both);
            InHalf(q, h, j + |refs|, cmax) && q.lat == Refs(0, 0, 0)
    ensures Total(p, refs, cmax, both, leg) == 0
    decreases |refs|
  {
    if refs != [] {
      var before := refs[..|refs| - 1];
      Unlatched(p, h, j, before, cmax, both, leg);
      StepInHalf(Drive(p, before, cmax, both).(ref := refs[|refs| - 1]), h, j + |refs| - 1, cmax, both);
    }
  }

  /** Volt-second conservation from reset, latching at both edges: whatever the
      starting phase and however the references move, what a leg delivers up to
      the end of the n-th half period after the first edge is the sum of the
      clamped references in force at the edges. */
  lemma VoltSeconds(phase: nat, cmax: int, lead: seq<Refs>, refs: seq<Refs>, n: nat, leg: Leg)
    requires 1 <= cmax && |refs| == cmax * n
    requires |lead| == cmax - 1 - phase % cmax
    ensures Total(Start(phase, cmax), lead + refs, cmax, true, leg) == ClampedHeads(refs, n, cmax, cmax, leg)
  {
    StartInHalf(phase, cmax);
    var p, h := Start(phase, cmax), phase / cmax;
    Unlatched(p, h, phase % cmax, lead, cmax, true, leg);
    HalfPeriods(Drive(p, lead, cmax, true), h, refs, n, cmax, leg);
    RunsCompose(p, lead, refs, cmax, true, leg);
  }

  lemma StartInHalf(phase: nat, cmax: int)
    requires 1 <= cmax
    ensures InHalf(Start(phase, cmax), phase / cmax, phase % cmax, cmax)
  {
    HalvesOfTriangle(Start(phase, cmax), phase / cmax, phase % cmax, cmax);
  }

  /** The same for the valley-only variant: the lead runs up to the first
      valley, through a peak that latches nothing if the start is on the rise,
      and each period then delivers twice its clamped reference. */
  lemma VoltSecondsValleyOnly(phase: nat, cmax: int, rise: seq<Refs>, fall: seq<Refs>,
                              refs: seq<Refs>, n: nat, leg: Leg)
    requires 1 <= cmax && |refs| == 2 * cmax * n
    requires |rise| == cmax - 1 - phase % cmax
    requires |fall| == if phase / cmax % 2 == 0 then cmax else 0
    ensures Total(Start(phase, cmax), rise + fall + refs, cmax, false, leg)
         == 2 * ClampedHeads(refs, n, 2 * cmax, cmax, leg)
  {
    var p, h := Start(phase, cmax), phase / cmax;
    StartInHalf(phase, cmax);
    Unlatched(p, h, phase % cmax, rise, cmax, false, leg);
    RunsCompose(p, rise, fall, cmax, false, leg);
    var q := Drive(p, rise, cmax, false);
    if h % 2 == 0 {
      HalfPeriod(q, h, fall, cmax, false, leg);
      ValleyPeriods(Drive(q, fall, cmax, false), h + 1, refs, n, cmax, leg);
    } else {
      assert fall == [];
      ValleyPeriods(q, h, refs, n, cmax, leg);
    }
    RunsCompose(p, rise + fall, refs, cmax, false, leg);
  }

  // ------------------------------------------------------------ pulses

  /** Over every run the carrier stays on its triangle. */
  lemma {:induction false} RunOnTriangle(phase: nat, cmax: int, refs: seq<Refs>, both: bool)
    requires 1 <= cmax
    ensures At(Drive(Start(phase, cmax), refs, cmax, both), phase + |refs|, cmax)
    decreases |refs|
  {
    if refs != [] {
      var n := |refs| - 1;
      RunOnTriangle(phase, cmax, refs[..n], both);
      NextOnTriangle(Drive(Start(phase, cmax), refs[..n], cmax, both).(ref := refs[n]), phase + n, cmax, both);
    }
  }

  /** The carrier turns at the last clock of each half period, and nowhere else. */
  lemma TurnsExactly(phase: nat, cmax: int, refs: seq<Refs>, both: bool)
    requires 1 <= cmax
    ensures var p, q := Drive(Start(phase, cmax), refs, cmax, both), (phase + |refs|) % (2 * cmax);
      && (AtPeak(p, cmax) <==> q == cmax - 1)
      && (AtValley(p) <==> q == 2 * cmax - 1)
  {
    RunOnTriangle(phase, cmax, refs, both);
  }

  function Magnitude(r: int): nat { if r < 0 then -r else r }

  function Sign(r: int): int { if r < 0 then -1 else if r > 0 then 1 else 0 }

  /** Over every run a leg's latched reference asks for one pulse a period, of its
      own sign and centred on the valley: it is on within as many clocks of the
      valley, on either side, as the reference is large. */
  lemma PulseIsCentred(phase: nat, cmax: int, refs: seq<Refs>, both: bool, leg: Leg)
    requires 1 <= cmax
    ensures var p, q := Drive(Start(phase, cmax), refs, cmax, both), (phase + |refs|) % (2 * cmax);
            var r := p.lat.Of(leg);
            NpcState(r, p.carrier, cmax)
            == if q < Magnitude(r) || q >= 2 * cmax - Magnitude(r) then Sign(r) else 0
  {
    RunOnTriangle(phase, cmax, refs, both);
  }
}
