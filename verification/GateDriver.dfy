/** The NPC gate driver of the full-stack mocks: a seven-state machine with
    minimum-pulse and dead-time counters. Both mock programs contain the same
    routine. Integers are unbounded here, which loses nothing: the counters
    stay within their limits (`CountersInRange`). */
module GateDriver {

  datatype Mode = Off | Pos | PosDead | Zero | Neg | NegDead | Wait

  const VEC_OFF := 0x0
  const VEC_POS := 0x3
  const VEC_ZERO_P := 0x2
  const VEC_ZERO := 0x6
  const VEC_ZERO_N := 0x4
  const VEC_NEG := 0xC

  datatype Params = Params(minPulse: int, deadTime: int, waitCnt: int)

  datatype Input = Input(cmd: int, en: bool, sync: bool)

  datatype Gate = Gate(mode: Mode, pwm: int, ctr: int, ctrWait: int,
                       minwOk: bool, dtOk: bool, dtOkReg: bool,
                       fault: bool, enSync: bool)

  const RESET := Gate(Off, VEC_OFF, 0, 0, false, false, false, false, false)

  /** The gate vector driven in each mode. */
  function Vector(m: Mode): int {
    match m
    case Off => VEC_OFF
    case Pos => VEC_POS
    case PosDead => VEC_ZERO_P
    case Zero => VEC_ZERO
    case Neg => VEC_NEG
    case NegDead => VEC_ZERO_N
    case Wait => VEC_OFF
  }

  function NextMode(g: Gate, i: Input, p: Params): Mode {
    if !i.en && g.mode != Off && g.mode != Wait then Wait
    else match g.mode
      case Off => if g.enSync && !g.fault && i.cmd == 0 then Zero else Off
      case Pos => if g.minwOk && i.cmd != 1 then PosDead else Pos
      case PosDead => if g.dtOk && !g.dtOkReg then (if i.cmd == 1 then Pos else Zero) else PosDead
      case Zero =>
        if g.minwOk && i.cmd == 1 then PosDead
        else if g.minwOk && i.cmd == -1 then NegDead
        else Zero
      case NegDead => if g.dtOk && !g.dtOkReg then (if i.cmd == -1 then Neg else Zero) else NegDead
      case Neg => if g.minwOk && i.cmd != -1 then NegDead else Neg
      case Wait => if !i.en && g.ctrWait >= p.waitCnt - 1 then Off else Wait
  }

  function NextWait(g: Gate, i: Input, p: Params): int {
    if g.mode != Wait || i.en then g.ctrWait
    else if g.ctrWait < p.waitCnt - 1 then g.ctrWait + 1
    else 0
  }

  function Step(g: Gate, i: Input, p: Params): Gate {
    var next := NextMode(g, i, p);
    var moved := next != g.mode;
    var limit := if p.minPulse > p.deadTime then p.minPulse else p.deadTime;
    Gate(
      next,
      Vector(g.mode),
      if moved then 0 else if g.ctr < limit then g.ctr + 1 else g.ctr,
      NextWait(g, i, p),
      !moved && (g.minwOk || g.ctr >= p.minPulse - 1),
      !moved && (g.dtOk || g.ctr >= p.deadTime - 1),
      g.dtOk,
      g.fault,
      if i.sync then i.en else g.enSync)
  }

  /** The driver as the mocks keep it: one record updated in place. */
  class Driver {
    var mode: Mode
    var pwm: int
    var ctr: int
    var ctrWait: int
    var minwOk: bool
    var dtOk: bool
    var dtOkReg: bool
    var fault: bool
    var enSync: bool

    ghost function State(): Gate
      reads this
    {
      Gate(mode, pwm, ctr, ctrWait, minwOk, dtOk, dtOkReg, fault, enSync)
    }

    constructor ()
      ensures State() == RESET
    {
      mode, pwm, ctr, ctrWait := Off, VEC_OFF, 0, 0;
      minwOk, dtOk, dtOkReg, fault, enSync := false, false, false, false, false;
    }

    /** The case analysis on the current mode. */
    method Decide(cmd: int, en: bool, waitCnt: int, ghost i: Input, ghost p: Params)
      returns (modeNext: Mode, pwmNext: int, waitNext: int)
      requires i.cmd == cmd && i.en == en && p.waitCnt == waitCnt
      ensures modeNext == NextMode(State(), i, p)
      ensures pwmNext == Vector(mode) && waitNext == NextWait(State(), i, p)
    {
      var dtOkRedge := dtOk && !dtOkReg;
      modeNext, pwmNext, waitNext := mode, pwm, ctrWait;
      match mode {
        case Off =>
          pwmNext := VEC_OFF;
          if enSync && !fault && cmd == 0 { modeNext := Zero; }
        case Pos =>
          pwmNext := VEC_POS;
          if minwOk { modeNext := if cmd == 1 then Pos else PosDead; }
        case PosDead =>
          pwmNext := VEC_ZERO_P;
          if dtOkRedge { modeNext := if cmd == 1 then Pos else Zero; }
        case Zero =>
          pwmNext := VEC_ZERO;
          if minwOk {
            if cmd == 1 { modeNext := PosDead; }
            else if cmd == -1 { modeNext := NegDead; }
            else { modeNext := Zero; }
          }
        case NegDead =>
          pwmNext := VEC_ZERO_N;
          if dtOkRedge { modeNext := if cmd == -1 then Neg else Zero; }
        case Neg =>
          pwmNext := VEC_NEG;
          if minwOk { modeNext := if cmd == -1 then Neg else NegDead; }
        case Wait =>
          pwmNext := VEC_OFF;
          if !en {
            if ctrWait < waitCnt - 1 { waitNext := ctrWait + 1; }
            else { waitNext := 0; modeNext := Off; }
          }
      }
      if !en && mode != Off && mode != Wait {
        modeNext := Wait;
      }
    }

    method GateStep(cmd: int, en: bool, sync: bool, minPulse: int, deadTime: int, waitCnt: int)
      returns (out: int)
      modifies this
      ensures State() == Step(old(State()), Input(cmd, en, sync), Params(minPulse, deadTime, waitCnt))
      ensures out == pwm
    {
      ghost var i, p := Input(cmd, en, sync), Params(minPulse, deadTime, waitCnt);
      var oldMode, oldCtr, oldDtOk := mode, ctr, dtOk;
      var ctrNext, minwNext, dtNext, enNext := ctr, minwOk, dtOk, enSync;
      if sync {
        enNext := en;
      }
      var modeNext, pwmNext, waitNext := Decide(cmd, en, waitCnt, i, p);
      if modeNext != oldMode {
        ctrNext, minwNext, dtNext := 0, false, false;
      } else {
        var limit := if minPulse > deadTime then minPulse else deadTime;
        if oldCtr < limit { ctrNext := oldCtr + 1; }
        if oldCtr >= minPulse - 1 { minwNext := true; }
        if oldCtr >= deadTime - 1 { dtNext := true; }
      }
      mode, pwm, ctr := modeNext, pwmNext, ctrNext;
      ctrWait, minwOk, dtOk := waitNext, minwNext, dtNext;
      dtOkReg, enSync := oldDtOk, enNext;
      out := pwm;
    }
  }

  // ------------------------------------------------------------ runs

  /** The state after a run of inputs from reset. */
  function Run(ins: seq<Input>, p: Params): Gate {
    if ins == [] then RESET else Step(Run(ins[..|ins| - 1], p), ins[|ins| - 1], p)
  }

  /** The vectors returned along a run. */
  function Outputs(ins: seq<Input>, p: Params): (outs: seq<int>)
    ensures |outs| == |ins|
  {
    if ins == [] then [] else Outputs(ins[..|ins| - 1], p) + [Run(ins, p).pwm]
  }

  /** Whether switch `bit` (0 to 3) conducts in a gate vector. */
  predicate On(v: int, bit: nat)
    requires bit < 4
  {
    match bit
    case 0 => v % 2 == 1
    case 1 => v / 2 % 2 == 1
    case 2 => v / 4 % 2 == 1
    case 3 => v / 8 % 2 == 1
  }

  /** Neither switch of the complementary pair (bit, bit + 2) conducts. */
  predicate BothOff(v: int, bit: nat)
    requires bit < 2
  {
    !On(v, bit) && !On(v, bit + 2)
  }

  // ------------------------------------------------------------ counters

  /** Steps a dead mode holds before its exit step, and likewise for the level
      modes and the wait mode. A counter limit below one acts like one. */
  function DeadSteps(p: Params): nat { if p.deadTime > 1 then p.deadTime else 1 }
  function PulseSteps(p: Params): nat { if p.minPulse > 1 then p.minPulse else 1 }
  function WaitSteps(p: Params): nat { if p.waitCnt > 1 then p.waitCnt else 1 }

  /** How many steps the current mode has been held. */
  function Age(ins: seq<Input>, p: Params): nat {
    if ins == [] then 0
    else if Run(ins, p).mode == Run(ins[..|ins| - 1], p).mode then Age(ins[..|ins| - 1], p) + 1
    else 0
  }

  /** The counters and flags as functions of the age. */
  ghost predicate Clocked(g: Gate, age: nat, p: Params) {
    && 0 <= g.ctr <= age
    && (age <= p.minPulse || age <= p.deadTime ==> g.ctr == age)
    && (age > p.minPulse && age > p.deadTime ==> g.ctr >= p.minPulse && g.ctr >= p.deadTime)
    && (g.minwOk <==> age >= PulseSteps(p))
    && (g.dtOk <==> age >= DeadSteps(p))
    && (age >= 1 ==> (g.dtOkReg <==> age - 1 >= DeadSteps(p)))
  }

  lemma ClockedStep(g: Gate, age: nat, i: Input, p: Params)
    requires Clocked(g, age, p)
    ensures Clocked(Step(g, i, p), if NextMode(g, i, p) == g.mode then age + 1 else 0, p)
  {}

  lemma {:induction false} RunIsClocked(ins: seq<Input>, p: Params)
    ensures Clocked(Run(ins, p), Age(ins, p), p)
  {
    if ins != [] {
      var before := ins[..|ins| - 1];
      RunIsClocked(before, p);
      ClockedStep(Run(before, p), Age(before, p), ins[|ins| - 1], p);
    }
  }

  function AtLeastZero(x: int): int { if x > 0 then x else 0 }

  /** Neither counter leaves the range of its limits, in any run. */
  lemma {:induction false} CountersInRange(ins: seq<Input>, p: Params)
    ensures var g := Run(ins, p);
      && 0 <= g.ctr <= AtLeastZero(if p.minPulse > p.deadTime then p.minPulse else p.deadTime)
      && 0 <= g.ctrWait <= AtLeastZero(p.waitCnt - 1)
  {
    if ins != [] { CountersInRange(ins[..|ins| - 1], p); }
  }

  predicate Dead(m: Mode) { m == PosDead || m == NegDead }

  predicate Level(m: Mode) { m == Pos || m == Zero || m == Neg }

  /** While enabled, a dead mode is left at one age and no other, and a level
      mode not before its minimum pulse. */
  lemma WhenModesEnd(g: Gate, age: nat, i: Input, p: Params)
    requires Clocked(g, age, p) && i.en
    ensures Dead(g.mode) ==> (NextMode(g, i, p) != g.mode <==> age == DeadSteps(p))
    ensures Level(g.mode) && NextMode(g, i, p) != g.mode ==> age >= PulseSteps(p)
  {}

  /** Between states `from` (just entered) and `to` (just left) of a run the
      mode is constant, and the driver is enabled throughout. */
  ghost predicate Stay(ins: seq<Input>, p: Params, from: nat, to: nat) {
    && from < to <= |ins|
    && (from > 0 ==> Run(ins[..from - 1], p).mode != Run(ins[..from], p).mode)
    && (forall k :: from <= k < to ==> Run(ins[..k], p).mode == Run(ins[..from], p).mode)
    && Run(ins[..to], p).mode != Run(ins[..from], p).mode
    && (forall k :: from <= k < to ==> ins[k].en)
  }

  lemma {:induction false} AgeInStay(ins: seq<Input>, p: Params, from: nat, to: nat, k: nat)
    requires Stay(ins, p, from, to) && from <= k < to
    ensures Age(ins[..k], p) == k - from
    decreases k
  {
    if k > 0 {
      assert ins[..k][..k - 1] == ins[..k - 1];
      if k > from {
        AgeInStay(ins, p, from, to, k - 1);
      }
    }
  }

  /** Exact dwell: every enabled stay in a dead mode lasts exactly the dead time
      plus one step, every stay in a level mode at least the minimum pulse plus
      one. */
  lemma ExactDwell(ins: seq<Input>, p: Params, from: nat, to: nat)
    requires Stay(ins, p, from, to)
    ensures Dead(Run(ins[..from], p).mode) ==> to - from == DeadSteps(p) + 1
    ensures Level(Run(ins[..from], p).mode) ==> to - from >= PulseSteps(p) + 1
  {
    var k := to - 1;
    AgeInStay(ins, p, from, to, k);
    RunIsClocked(ins[..k], p);
    assert ins[..to][..k] == ins[..k] && ins[..to][k] == ins[k];
    assert Run(ins[..k], p).mode == Run(ins[..from], p).mode;
    WhenModesEnd(Run(ins[..k], p), k - from, ins[k], p);
  }

  // ------------------------------------------------------------ response

  /** The level a constant command asks for. */
  function Target(cmd: int): Mode
    requires -1 <= cmd <= 1
  {
    if cmd == 1 then Pos else if cmd == 0 then Zero else Neg
  }

  /** Steps still needed to reach the commanded level: the rest of the current
      mode, then whole dead times and pulses on the way. */
  function Remaining(m: Mode, age: nat, cmd: int, p: Params): int
    requires Dead(m) || Level(m)
    requires -1 <= cmd <= 1
  {
    var dead, pulse := DeadSteps(p) + 1, PulseSteps(p) + 1;
    var rest := if Dead(m) then dead - age else if age < pulse then pulse - age else 1;
    if m == Target(cmd) then 0
    else match m
      case PosDead => if cmd == -1 then rest + pulse + dead else rest
      case NegDead => if cmd == 1 then rest + pulse + dead else rest
      case Zero => rest + dead
      case Pos => if cmd == 0 then rest + dead else rest + dead + pulse + dead
      case _ => if cmd == 0 then rest + dead else rest + dead + pulse + dead
  }

  ghost predicate Running(g: Gate, age: nat, p: Params) {
    && (Dead(g.mode) || Level(g.mode))
    && Clocked(g, age, p)
    && (Dead(g.mode) ==> age <= DeadSteps(p))
  }

  function ResponseBound(p: Params): nat { 2 * (PulseSteps(p) + 1) + 2 * (DeadSteps(p) + 1) }

  lemma RemainingFalls(g: Gate, age: nat, i: Input, p: Params)
    requires Running(g, age, p) && i.en && -1 <= i.cmd <= 1
    ensures var g' := Step(g, i, p);
            var age' := if g'.mode == g.mode then age + 1 else 0;
            && Running(g', age', p)
            && 0 <= Remaining(g.mode, age, i.cmd, p) <= ResponseBound(p)
            && (Remaining(g.mode, age, i.cmd, p) == 0 ==> Remaining(g'.mode, age', i.cmd, p) == 0)
            && (Remaining(g.mode, age, i.cmd, p) > 0 ==>
                  0 <= Remaining(g'.mode, age', i.cmd, p) < Remaining(g.mode, age, i.cmd, p))
            && (Remaining(g.mode, age, i.cmd, p) == 0 <==> g.mode == Target(i.cmd))
  {
    ClockedStep(g, age, i, p);
    WhenModesEnd(g, age, i, p);
  }

  lemma {:induction false} DeadIsShort(ins: seq<Input>, p: Params)
    ensures Dead(Run(ins, p).mode) ==> Age(ins, p) <= DeadSteps(p)
  {
    if ins != [] {
      var before := ins[..|ins| - 1];
      DeadIsShort(before, p);
      RunIsClocked(before, p);
    }
  }

  ghost predicate Commanded(more: seq<Input>, cmd: int) {
    forall k :: 0 <= k < |more| ==> more[k].cmd == cmd && more[k].en
  }

  /** The last step of a run, seen by the two measures above. */
  lemma LastStep(ins: seq<Input>, x: Input, p: Params)
    ensures Run(ins + [x], p) == Step(Run(ins, p), x, p)
    ensures Age(ins + [x], p)
         == if Run(ins + [x], p).mode == Run(ins, p).mode then Age(ins, p) + 1 else 0
  {
    assert (ins + [x])[..|ins + [x]| - 1] == ins;
  }

  /** After `n` commanded steps at most the rest of the bound is left. */
  ghost predicate Approaching(g: Gate, age: nat, cmd: int, p: Params, n: nat)
    requires -1 <= cmd <= 1
  {
    && Running(g, age, p)
    && var left := Remaining(g.mode, age, cmd, p);
       left == 0 || 0 < left <= ResponseBound(p) - n
  }

  lemma ApproachingStep(ins: seq<Input>, x: Input, p: Params, n: nat)
    requires x.en && -1 <= x.cmd <= 1
    requires Approaching(Run(ins, p), Age(ins, p), x.cmd, p, n)
    ensures Approaching(Run(ins + [x], p), Age(ins + [x], p), x.cmd, p, n + 1)
  {
    LastStep(ins, x, p);
    RemainingFalls(Run(ins, p), Age(ins, p), x, p);
  }

  lemma ApproachingStart(ins: seq<Input>, p: Params, cmd: int)
    requires Dead(Run(ins, p).mode) || Level(Run(ins, p).mode)
    requires -1 <= cmd <= 1
    ensures Approaching(Run(ins, p), Age(ins, p), cmd, p, 0)
  {
    RunIsClocked(ins, p);
    DeadIsShort(ins, p);
    RemainingFalls(Run(ins, p), Age(ins, p), Input(cmd, true, false), p);
  }

  lemma {:induction false} ApproachingRun(ins: seq<Input>, more: seq<Input>, p: Params, cmd: int)
    requires Dead(Run(ins, p).mode) || Level(Run(ins, p).mode)
    requires -1 <= cmd <= 1 && Commanded(more, cmd)
    ensures Approaching(Run(ins + more, p), Age(ins + more, p), cmd, p, |more|)
    decreases |more|
  {
    if more == [] {
      ApproachingStart(ins, p, cmd);
      assert ins + more == ins;
    } else {
      var k := |more| - 1;
      assert ins + more == (ins + more[..k]) + [more[k]];
      ApproachingRun(ins, more[..k], p, cmd);
      ApproachingStep(ins + more[..k], more[k], p, k);
    }
  }

  /** Bounded response: from any reachable running state, a constant command is
      reached, and then kept, within two pulses and two dead times. */
  lemma BoundedResponse(ins: seq<Input>, more: seq<Input>, p: Params, cmd: int)
    requires Dead(Run(ins, p).mode) || Level(Run(ins, p).mode)
    requires -1 <= cmd <= 1 && Commanded(more, cmd)
    requires |more| >= ResponseBound(p)
    ensures Run(ins + more, p).mode == Target(cmd)
  {
    ApproachingRun(ins, more, p, cmd);
    RemainingFalls(Run(ins + more, p), Age(ins + more, p), Input(cmd, true, false), p);
  }

  // ------------------------------------------------------------ dead time

  datatype Last = Nothing | Upper | Lower

  /** What the outputs so far say about one complementary pair: which switch of
      it conducted last, and for how many outputs both have been off since. */
  datatype Past = Past(last: Last, quiet: nat)

  function Observe(past: Past, v: int, bit: nat): Past
    requires bit < 2
  {
    if On(v, bit) then Past(Upper, 0)
    else if On(v, bit + 2) then Past(Lower, 0)
    else Past(past.last, past.quiet + 1)
  }

  function Look(outs: seq<int>, bit: nat): Past
    requires bit < 2
  {
    if outs == [] then Past(Nothing, 0)
    else Observe(Look(outs[..|outs| - 1], bit), outs[|outs| - 1], bit)
  }

  /** What every reachable state keeps about a pair's recent outputs. Pair 0 is
      parted by the mode PosDead, pair 1 by NegDead. */
  ghost predicate Guarded(g: Gate, past: Past, bit: nat, p: Params)
    requires bit < 2
  {
    var parting := if bit == 0 then PosDead else NegDead;
    var apart := past.quiet >= DeadSteps(p) + 1;
    && 0 <= g.ctr && (g.dtOk ==> g.ctr >= p.deadTime)
    && (g.mode == Wait ==> past.quiet >= g.ctrWait >= 0)
    && (g.mode != Wait ==> g.ctrWait == 0)
    && (g.mode == Off ==> past.last == Nothing || past.quiet >= WaitSteps(p))
    && (g.mode == parting ==> past.quiet >= g.ctr && (g.dtOk ==> past.quiet >= 1))
    && (On(Vector(g.mode), bit) && past.last == Lower ==> apart)
    && (On(Vector(g.mode), bit + 2) && past.last == Upper ==> apart)
  }

  lemma GuardedStep(g: Gate, past: Past, bit: nat, i: Input, p: Params)
    requires bit < 2 && Guarded(g, past, bit, p) && WaitSteps(p) >= DeadSteps(p)
    ensures Guarded(Step(g, i, p), Observe(past, Vector(g.mode), bit), bit, p)
  {}

  lemma {:induction false} RunIsGuarded(ins: seq<Input>, p: Params, bit: nat)
    requires bit < 2 && WaitSteps(p) >= DeadSteps(p)
    ensures Guarded(Run(ins, p), Look(Outputs(ins, p), bit), bit, p)
  {
    if ins != [] {
      var before := ins[..|ins| - 1];
      RunIsGuarded(before, p, bit);
      GuardedStep(Run(before, p), Look(Outputs(before, p), bit), bit, ins[|ins| - 1], p);
      assert Outputs(ins, p)[..|ins| - 1] == Outputs(before, p);
    }
  }

  lemma {:induction false} LookMeans(outs: seq<int>, bit: nat)
    requires bit < 2
    ensures var past := Look(outs, bit);
      && past.quiet <= |outs|
      && (forall k :: |outs| - past.quiet <= k < |outs| ==> BothOff(outs[k], bit))
      && (past.last == Nothing <==> past.quiet == |outs|)
      && (past.last == Upper ==> On(outs[|outs| - 1 - past.quiet], bit))
      && (past.last == Lower ==> On(outs[|outs| - 1 - past.quiet], bit + 2))
  {
    if outs != [] {
      LookMeans(outs[..|outs| - 1], bit);
    }
  }

  lemma {:induction false} OutputAt(ins: seq<Input>, p: Params, j: nat)
    requires j < |ins|
    ensures Outputs(ins, p)[j] == Vector(Run(ins[..j], p).mode)
    ensures Outputs(ins, p)[..j] == Outputs(ins[..j], p)
    decreases |ins|
  {
    var before := ins[..|ins| - 1];
    assert Outputs(ins, p)[..|ins| - 1] == Outputs(before, p);
    if j < |ins| - 1 {
      OutputAt(before, p, j);
      assert before[..j] == ins[..j];
      assert Outputs(ins, p)[..|ins| - 1][..j] == Outputs(ins, p)[..j];
    }
  }

  /** `n` consecutive outputs strictly between `i` and `j` with both switches of
      the pair off. */
  ghost predicate Parted(outs: seq<int>, bit: nat, i: nat, j: nat, n: nat)
    requires bit < 2
  {
    exists m: nat :: i < m && m + n <= j <= |outs| && Quiet(outs, bit, m, n)
  }

  ghost predicate Quiet(outs: seq<int>, bit: nat, m: nat, n: nat)
    requires bit < 2
  {
    m + n <= |outs| && forall k :: m <= k < m + n ==> BothOff(outs[k], bit)
  }

  /** One switch of the pair conducts at `i`, the other at `j`. */
  predicate Opposed(outs: seq<int>, bit: nat, i: nat, j: nat)
    requires bit < 2 && i < j < |outs|
  {
    || (On(outs[i], bit) && On(outs[j], bit + 2))
    || (On(outs[i], bit + 2) && On(outs[j], bit))
  }

  lemma NeverTogether(ins: seq<Input>, p: Params, bit: nat, j: nat)
    requires bit < 2 && j < |ins|
    ensures !(On(Outputs(ins, p)[j], bit) && On(Outputs(ins, p)[j], bit + 2))
  {
    OutputAt(ins, p, j);
  }

  lemma OppositeIsFar(ins: seq<Input>, p: Params, bit: nat, j: nat)
    requires bit < 2 && j < |ins| && WaitSteps(p) >= DeadSteps(p)
    ensures var outs := Outputs(ins, p);
            var past := Look(outs[..j], bit);
            && (On(outs[j], bit) && past.last == Lower ==> past.quiet >= DeadSteps(p) + 1)
            && (On(outs[j], bit + 2) && past.last == Upper ==> past.quiet >= DeadSteps(p) + 1)
  {
    RunIsGuarded(ins[..j], p, bit);
    OutputAt(ins, p, j);
  }

  /** The switch that conducted last before `j`: either it is the opposite of
      the one at `j`, a whole dead time ago, or it opposes the one at `i`. */
  lemma LastSwitch(ins: seq<Input>, p: Params, bit: nat, i: nat, j: nat)
    requires bit < 2 && i < j < |ins| && WaitSteps(p) >= DeadSteps(p)
    requires Opposed(Outputs(ins, p), bit, i, j)
    ensures var outs := Outputs(ins, p);
            var q := Look(outs[..j], bit).quiet;
            && i < j - q && Quiet(outs, bit, j - q, q)
            && (q >= DeadSteps(p) + 1 || (i < j - 1 - q && Opposed(outs, bit, i, j - 1 - q)))
  {
    var outs := Outputs(ins, p);
    var past := Look(outs[..j], bit);
    var q := past.quiet;
    OppositeIsFar(ins, p, bit, j);
    LookMeans(outs[..j], bit);
    assert forall k :: 0 <= k < j ==> outs[..j][k] == outs[k];
    assert !BothOff(outs[..j][i], bit);
    NeverTogether(ins, p, bit, i);
    NeverTogether(ins, p, bit, j);
  }

  /** Complementary switches never conduct together, and between one of them and
      the other there is always a block of dead outputs, whatever the commands,
      the enable and the synchronisation do. */
  lemma {:induction false} DeadTimeKept(ins: seq<Input>, p: Params, bit: nat, i: nat, j: nat)
    requires bit < 2 && i < j < |ins| && WaitSteps(p) >= DeadSteps(p)
    requires Opposed(Outputs(ins, p), bit, i, j)
    ensures Parted(Outputs(ins, p), bit, i, j, DeadSteps(p) + 1)
    decreases j
  {
    var outs := Outputs(ins, p);
    var q := Look(outs[..j], bit).quiet;
    LastSwitch(ins, p, bit, i, j);
    if q >= DeadSteps(p) + 1 {
      assert Quiet(outs, bit, j - q, DeadSteps(p) + 1);
    } else {
      DeadTimeKept(ins, p, bit, i, j - 1 - q);
    }
  }

  /** No fault is ever raised, the wait counter is used in its mode only, and
      the enable is latched at synchronisation only. */
  lemma {:induction false} Latches(ins: seq<Input>, p: Params)
    ensures !Run(ins, p).fault
    ensures Run(ins, p).mode != Wait ==> Run(ins, p).ctrWait == 0
  {
    if ins != [] {
      Latches(ins[..|ins| - 1], p);
    }
  }

  /** `n` steps of a disabled wait. */
  function Disabled(n: nat): seq<Input> { seq(n, _ => Input(0, false, false)) }

  lemma {:induction false} WaitRunsOut(ins: seq<Input>, n: nat, p: Params)
    requires Run(ins, p).mode == Wait && Run(ins, p).ctrWait == 0
    requires n <= WaitSteps(p)
    ensures var g := Run(ins + Disabled(n), p);
            && g.enSync == Run(ins, p).enSync
            && if n < WaitSteps(p) then g.mode == Wait && g.ctrWait == n else g.mode == Off
  {
    if n == 0 {
      assert ins + Disabled(0) == ins;
    } else {
      WaitRunsOut(ins, n - 1, p);
      LastStep(ins + Disabled(n - 1), Input(0, false, false), p);
      assert ins + Disabled(n) == (ins + Disabled(n - 1)) + [Input(0, false, false)];
    }
  }

  lemma {:induction false} EnableStaysLatched(ins: seq<Input>, more: seq<Input>, p: Params)
    requires forall k :: 0 <= k < |more| ==> !more[k].sync
    ensures Run(ins + more, p).enSync == Run(ins, p).enSync
    decreases |more|
  {
    if more == [] {
      assert ins + more == ins;
    } else {
      var k := |more| - 1;
      EnableStaysLatched(ins, more[..k], p);
      LastStep(ins + more[..k], more[k], p);
      assert ins + more == (ins + more[..k]) + [more[k]];
    }
  }

  lemma ReachZero(p: Params) returns (ins: seq<Input>)
    ensures Run(ins, p).mode == Zero && Run(ins, p).enSync
  {
    var first, second := Input(0, true, true), Input(0, true, false);
    LastStep([], first, p);
    LastStep([] + [first], second, p);
    ins := [] + [first] + [second];
  }

  /** A run that brings any driver to a commanded level. */
  lemma Reach(p: Params, cmd: int) returns (ins: seq<Input>)
    requires -1 <= cmd <= 1
    ensures Run(ins, p).mode == Target(cmd) && Run(ins, p).enSync
  {
    var start := ReachZero(p);
    var more := seq(ResponseBound(p), _ => Input(cmd, true, false));
    EnableStaysLatched(start, more, p);
    BoundedResponse(start, more, p, cmd);
    ins := start + more;
  }

  /** The wait after a disable is what keeps the dead time across a restart: with
      a shorter one, some run turns on opposite switches too close together. */
  lemma ShortWaitBreaksDeadTime(p: Params, bit: nat) returns (ins: seq<Input>, i: nat, j: nat)
    requires bit < 2 && WaitSteps(p) < DeadSteps(p)
    ensures i < j < |ins| && Opposed(Outputs(ins, p), bit, i, j)
    ensures !Parted(Outputs(ins, p), bit, i, j, DeadSteps(p) + 1)
  {
    var up := Reach(p, if bit == 0 then 1 else -1);
    var off := Input(0, false, false);
    DisabledRestart(up, p);
    var quick := up + [off] + Disabled(WaitSteps(p)) + [off];
    ins := quick + [off];
    i, j := |up|, |quick|;
    assert ins[..i] == up && ins[..j] == quick;
    LevelThenZero(ins, p, bit, i, j);
    TooClose(Outputs(ins, p), bit, i, j, DeadSteps(p) + 1);
  }

  lemma LevelThenZero(ins: seq<Input>, p: Params, bit: nat, i: nat, j: nat)
    requires bit < 2 && i < j < |ins|
    requires Run(ins[..i], p).mode == if bit == 0 then Pos else Neg
    requires Run(ins[..j], p).mode == Zero
    ensures Opposed(Outputs(ins, p), bit, i, j)
  {
    OutputAt(ins, p, i);
    OutputAt(ins, p, j);
  }

  lemma TooClose(outs: seq<int>, bit: nat, i: nat, j: nat, n: nat)
    requires bit < 2 && j < i + 1 + n
    ensures !Parted(outs, bit, i, j, n)
  {}

  /** Disabling a level for just the wait, with the enable still latched, leads
      straight back to the zero level. */
  lemma DisabledRestart(up: seq<Input>, p: Params)
    requires Level(Run(up, p).mode) && Run(up, p).enSync
    ensures var off := Input(0, false, false);
            Run(up + [off] + Disabled(WaitSteps(p)) + [off], p).mode == Zero
  {
    var off := Input(0, false, false);
    Latches(up, p);
    LastStep(up, off, p);
    WaitRunsOut(up + [off], WaitSteps(p), p);
    var drained := up + [off] + Disabled(WaitSteps(p));
    Latches(drained, p);
    LastStep(drained, off, p);
  }

  /** The dead time holds over all runs exactly when the wait is long enough. */
  lemma DeadTimeExactly(p: Params, bit: nat)
    requires bit < 2
    ensures (forall ins, i: nat, j: nat ::
               i < j < |ins| && Opposed(Outputs(ins, p), bit, i, j) ==>
               Parted(Outputs(ins, p), bit, i, j, DeadSteps(p) + 1))
       <==> WaitSteps(p) >= DeadSteps(p)
  {
    if WaitSteps(p) >= DeadSteps(p) {
      forall ins, i: nat, j: nat | i < j < |ins| && Opposed(Outputs(ins, p), bit, i, j)
        ensures Parted(Outputs(ins, p), bit, i, j, DeadSteps(p) + 1)
      {
        DeadTimeKept(ins, p, bit, i, j);
      }
    } else {
      var ins, i, j := ShortWaitBreaksDeadTime(p, bit);
    }
  }
}
