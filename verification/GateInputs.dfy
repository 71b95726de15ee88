/** The gate driver read off its inputs: when it starts, when it moves, and which
    switches it turns on. */
module GateInputs {
  import opened GateDriver

  // ------------------------------------------------------------ the latched enable

  /** The enable at the last sync, low before the first. */
  function SyncedEnable(ins: seq<Input>): bool {
    if ins == [] then false
    else if ins[|ins| - 1].sync then ins[|ins| - 1].en
    else SyncedEnable(ins[..|ins| - 1])
  }

  lemma {:induction false} EnableIsSynced(ins: seq<Input>, p: Params)
    ensures Run(ins, p).enSync == SyncedEnable(ins)
  {
    if ins != [] { EnableIsSynced(ins[..|ins| - 1], p); }
  }

  /** The driver leaves off exactly when the enable at the last sync was high and the
      command is zero, and then for zero. */
  lemma StartsExactly(ins: seq<Input>, x: Input, p: Params)
    requires Run(ins, p).mode == Off
    ensures Run(ins + [x], p).mode == if SyncedEnable(ins) && x.cmd == 0 then Zero else Off
  {
    EnableIsSynced(ins, p);
    Latches(ins, p);
    LastStep(ins, x, p);
  }

  ghost predicate NeverEnabled(ins: seq<Input>) {
    forall k :: 0 <= k < |ins| ==> !(ins[k].sync && ins[k].en)
  }

  lemma {:induction false} NeverEnabledIsOff(ins: seq<Input>, p: Params)
    requires NeverEnabled(ins)
    ensures Run(ins, p).mode == Off && !Run(ins, p).enSync
  {
    if ins != [] {
      NeverEnabledIsOff(ins[..|ins| - 1], p);
      Latches(ins[..|ins| - 1], p);
    }
  }

  /** Before the first sync with the enable high every output is off, whatever the
      commands. */
  lemma OffUntilEnabled(ins: seq<Input>, p: Params, k: nat)
    requires k < |ins| && NeverEnabled(ins[..k])
    ensures Outputs(ins, p)[k] == 0
  {
    OutputAt(ins, p, k);
    NeverEnabledIsOff(ins[..k], p);
  }

  // ------------------------------------------------------------ the wait

  /** Clocks with the enable low since the wait began. */
  function Waited(ins: seq<Input>, p: Params): nat {
    if ins == [] || Run(ins, p).mode != Wait || Run(ins[..|ins| - 1], p).mode != Wait then 0
    else Waited(ins[..|ins| - 1], p) + if ins[|ins| - 1].en then 0 else 1
  }

  lemma {:induction false} WaitIsCounted(ins: seq<Input>, p: Params)
    ensures Run(ins, p).mode == Wait ==> Run(ins, p).ctrWait == Waited(ins, p)
  {
    if ins != [] {
      var before := ins[..|ins| - 1];
      WaitIsCounted(before, p);
      Latches(before, p);
    }
  }

  /** Once begun, the wait lasts exactly as many clocks with the enable low as it
      should. */
  lemma WaitsExactly(ins: seq<Input>, x: Input, p: Params)
    requires Run(ins, p).mode == Wait
    ensures Run(ins + [x], p).mode == if !x.en && Waited(ins, p) + 1 >= WaitSteps(p) then Off else Wait
  {
    WaitIsCounted(ins, p);
    LastStep(ins, x, p);
  }

  // ------------------------------------------------------------ running

  /** Where a running driver goes, by how long it has held its mode. */
  function NextRunning(m: Mode, age: nat, cmd: int, p: Params): Mode {
    match m
    case Pos => if age >= PulseSteps(p) && cmd != 1 then PosDead else Pos
    case Zero =>
      if age >= PulseSteps(p) && cmd == 1 then PosDead
      else if age >= PulseSteps(p) && cmd == -1 then NegDead else Zero
    case Neg => if age >= PulseSteps(p) && cmd != -1 then NegDead else Neg
    case PosDead => if age == DeadSteps(p) then (if cmd == 1 then Pos else Zero) else PosDead
    case NegDead => if age == DeadSteps(p) then (if cmd == -1 then Neg else Zero) else NegDead
    case _ => m
  }

  lemma {:induction false} DeadIsYoung(ins: seq<Input>, p: Params)
    ensures Dead(Run(ins, p).mode) ==> Age(ins, p) <= DeadSteps(p)
  {
    if ins != [] {
      var before := ins[..|ins| - 1];
      DeadIsYoung(before, p);
      RunIsClocked(before, p);
    }
  }

  /** A running driver stops as soon as the enable is low. Otherwise it leaves a level
      at the first other command after the minimum pulse, and a dead mode at the end
      of the dead time, for the level commanded then. */
  lemma MovesExactly(ins: seq<Input>, x: Input, p: Params)
    requires Dead(Run(ins, p).mode) || Level(Run(ins, p).mode)
    ensures Run(ins + [x], p).mode == if x.en then NextRunning(Run(ins, p).mode, Age(ins, p), x.cmd, p) else Wait
  {
    RunIsClocked(ins, p);
    DeadIsYoung(ins, p);
    LastStep(ins, x, p);
  }

  // ------------------------------------------------------------ the switches

  /** Which switches conduct: the upper two for the positive level, the inner two for
      zero, the lower two for the negative level, one of the inner two on the way,
      and none while off or waiting. */
  predicate Conducts(m: Mode, bit: nat) {
    match m
    case Pos => bit == 0 || bit == 1
    case PosDead => bit == 1
    case Zero => bit == 1 || bit == 2
    case NegDead => bit == 2
    case Neg => bit == 2 || bit == 3
    case Off => false
    case Wait => false
  }

  lemma SwitchesExactly(ins: seq<Input>, p: Params, k: nat, bit: nat)
    requires k < |ins| && bit < 4
    ensures On(Outputs(ins, p)[k], bit) <==> Conducts(Run(ins[..k], p).mode, bit)
    ensures 0 <= Outputs(ins, p)[k] < 16
  {
    OutputAt(ins, p, k);
  }

  lemma SwitchesOfLevel(cmd: int, bit: nat)
    requires -1 <= cmd <= 1
    ensures Conducts(Target(cmd), bit) <==> bit == 1 - cmd || bit == 2 - cmd
  {}

  /** From any running state a constant command turns on the switches of its level,
      and no others, within the bound. */
  lemma CommandedSwitches(ins: seq<Input>, more: seq<Input>, p: Params, cmd: int, bit: nat, x: Input)
    requires Dead(Run(ins, p).mode) || Level(Run(ins, p).mode)
    requires -1 <= cmd <= 1 && Commanded(more, cmd) && |more| >= ResponseBound(p) && bit < 4
    ensures var all := ins + more + [x];
            On(Outputs(all, p)[|ins + more|], bit) <==> bit == 1 - cmd || bit == 2 - cmd
  {
    BoundedResponse(ins, more, p, cmd);
    SwitchesOfLevel(cmd, bit);
    NextOutput(ins + more, x, p, bit);
  }

  lemma NextOutput(ins: seq<Input>, x: Input, p: Params, bit: nat)
    requires bit < 4
    ensures On(Outputs(ins + [x], p)[|ins|], bit) <==> Conducts(Run(ins, p).mode, bit)
  {
    assert (ins + [x])[..|ins|] == ins;
    SwitchesExactly(ins + [x], p, |ins|, bit);
  }
}
