/** The gateway's clock for live samples (sampletime.go): a second
    implementation of the recorder's unwrapping. Times are exact cycle counts. */
module SampleClock {
  import opened Bytes
  import opened Counters
  import opened Frame
  import opened Capture
  import opened Wrappers
  import T = CaptureTimeline

  datatype State = State(haveEpoch: bool, epoch: u16, last: u32, wrap: nat, baseAbs: nat, lastElapsed: nat)

  const FRESH := State(false, 0, 0, 0, 0, 0)

  /** The clock after a reading, and the elapsed cycles when it is accepted. */
  function Tick(c: State, cycles: u32, epoch: u16): (State, Option<nat>) {
    if !c.haveEpoch || epoch != c.epoch then (State(true, epoch, cycles, 0, cycles, 0), Some(0))
    else if cycles <= c.last && !Wrapped(c.last, cycles) then (c, None)
    else
      var wrap := if Wrapped(c.last, cycles) then c.wrap + WORD else c.wrap;
      var abs := wrap + cycles;
      var next := c.(last := cycles, wrap := wrap);
      if abs < c.baseAbs || abs - c.baseAbs <= c.lastElapsed then (next, None)
      else (next.(lastElapsed := abs - c.baseAbs), Some(abs - c.baseAbs))
  }

  class Clock {
    var haveEpoch: bool
    var epoch: u16
    var last: u32
    var wrap: nat
    var baseAbs: nat
    var lastElapsed: nat

    function Abstract(): State
      reads this
    {
      State(haveEpoch, epoch, last, wrap, baseAbs, lastElapsed)
    }

    constructor ()
      ensures Abstract() == FRESH
    {
      haveEpoch, epoch, last, wrap, baseAbs, lastElapsed := false, 0, 0, 0, 0, 0;
    }

    method Seconds(cycles: u32, e: u16) returns (elapsed: nat, ok: bool)
      modifies this
      ensures (Abstract(), if ok then Some(elapsed) else None) == Tick(old(Abstract()), cycles, e)
    {
      if !haveEpoch || e != epoch {
        haveEpoch, epoch, last, wrap := true, e, cycles, 0;
        baseAbs := cycles;
        lastElapsed := 0;
        return 0, true;
      }
      if cycles < last && last - cycles > HALF {
        wrap := wrap + WORD;
      } else if cycles <= last {
        return 0, false;
      }
      last := cycles;
      var absCycles := wrap + cycles;
      if absCycles < baseAbs {
        return 0, false;
      }
      var sec := absCycles - baseAbs;
      if sec <= lastElapsed {
        return 0, false;
      }
      lastElapsed := sec;
      return sec, true;
    }
  }

  // ------------------------------------------------------------ runs

  datatype Reading = Reading(cycles: u32, epoch: u16)

  function Run(rs: seq<Reading>): State {
    if rs == [] then FRESH else Tick(Run(rs[..|rs| - 1]), rs[|rs| - 1].cycles, rs[|rs| - 1].epoch).0
  }

  /** The answer to the last reading of a run. */
  function Answer(rs: seq<Reading>): Option<nat>
    requires rs != []
  {
    Tick(Run(rs[..|rs| - 1]), rs[|rs| - 1].cycles, rs[|rs| - 1].epoch).1
  }

  /** The last accepted time is the distance of the last reading taken from the
      base. */
  predicate Settled(c: State) {
    c.haveEpoch ==> c.wrap + c.last == c.baseAbs + c.lastElapsed
  }

  lemma TickKeepsSettled(c: State, cycles: u32, epoch: u16)
    requires Settled(c)
    ensures Settled(Tick(c, cycles, epoch).0)
  {}

  lemma {:induction false} RunIsSettled(rs: seq<Reading>)
    ensures Settled(Run(rs))
  {
    if rs != [] {
      RunIsSettled(rs[..|rs| - 1]);
      TickKeepsSettled(Run(rs[..|rs| - 1]), rs[|rs| - 1].cycles, rs[|rs| - 1].epoch);
    }
  }

  /** A reading that passes the first test on a known epoch is always accepted,
      with a later time: the two guards behind it are never taken. */
  lemma LaterGuardsIdle(rs: seq<Reading>, r: Reading)
    ensures var c := Run(rs);
            var answer := Tick(c, r.cycles, r.epoch).1;
            if !c.haveEpoch || r.epoch != c.epoch then answer == Some(0)
            else if r.cycles <= c.last && !Wrapped(c.last, r.cycles) then answer == None
            else answer.Some? && answer.value > c.lastElapsed
  {
    RunIsSettled(rs);
  }

  /** Readings `i` to `j - 1` belong to one epoch. */
  ghost predicate OneEpoch(rs: seq<Reading>, i: nat, j: nat) {
    i < j <= |rs| && forall k :: i <= k < j ==> rs[k].epoch == rs[i].epoch
  }

  /** The clock stands in an epoch, no earlier than `t`. */
  predicate Stands(c: State, epoch: u16, t: nat) {
    c.haveEpoch && c.epoch == epoch && c.lastElapsed >= t
  }

  lemma TickStands(c: State, r: Reading, t: nat)
    requires Settled(c)
    ensures Tick(c, r.cycles, r.epoch).1 == Some(t) || Stands(c, r.epoch, t) ==>
              Stands(Tick(c, r.cycles, r.epoch).0, r.epoch, t)
  {}

  lemma LastReading(rs: seq<Reading>, j: nat)
    requires 0 < j <= |rs|
    ensures Run(rs[..j]) == Tick(Run(rs[..j - 1]), rs[j - 1].cycles, rs[j - 1].epoch).0
    ensures Answer(rs[..j]) == Tick(Run(rs[..j - 1]), rs[j - 1].cycles, rs[j - 1].epoch).1
  {
    assert rs[..j][..j - 1] == rs[..j - 1];
  }

  /** After an accepted reading the clock stands at its time, and stands no
      earlier while the epoch lasts. */
  lemma {:induction false} ClockHolds(rs: seq<Reading>, i: nat, j: nat)
    requires OneEpoch(rs, i, j) && Answer(rs[..i + 1]).Some?
    ensures Stands(Run(rs[..j]), rs[i].epoch, Answer(rs[..i + 1]).value)
    decreases j
  {
    var t := Answer(rs[..i + 1]).value;
    RunIsSettled(rs[..j - 1]);
    LastReading(rs, j);
    if j > i + 1 {
      ClockHolds(rs, i, j - 1);
      assert rs[j - 1].epoch == rs[i].epoch;
    }
    TickStands(Run(rs[..j - 1]), rs[j - 1], t);
  }

  /** Within an epoch the accepted times rise strictly, whatever the readings. */
  lemma TimesRise(rs: seq<Reading>, i: nat, j: nat)
    requires OneEpoch(rs, i, j + 1) && i < j
    requires Answer(rs[..i + 1]).Some? && Answer(rs[..j + 1]).Some?
    ensures Answer(rs[..i + 1]).value < Answer(rs[..j + 1]).value
  {
    ClockHolds(rs, i, j);
    LaterGuardsIdle(rs[..j], rs[j]);
    assert rs[..j + 1][..j] == rs[..j];
  }

  /** The clock stands in the epoch of the last reading. */
  lemma {:induction false} EpochOfLast(rs: seq<Reading>)
    requires rs != []
    ensures Run(rs).haveEpoch && Run(rs).epoch == rs[|rs| - 1].epoch
  {
    if |rs| > 1 { EpochOfLast(rs[..|rs| - 1]); }
  }

  lemma RunOneMore(rs: seq<Reading>, r: Reading)
    ensures Run(rs + [r]) == Tick(Run(rs), r.cycles, r.epoch).0
    ensures Answer(rs + [r]) == Tick(Run(rs), r.cycles, r.epoch).1
  {
    assert (rs + [r])[..|rs|] == rs;
  }

  /** An epoch starts over: its readings are answered as if no others had come
      before them. */
  lemma {:induction false} EpochStartsOver(before: seq<Reading>, rs: seq<Reading>)
    requires before != [] && rs != [] && rs[0].epoch != before[|before| - 1].epoch
    ensures Run(before + rs) == Run(rs) && Answer(before + rs) == Answer(rs)
    decreases |rs|
  {
    var n := |rs| - 1;
    assert before + rs == (before + rs[..n]) + [rs[n]] && rs == rs[..n] + [rs[n]];
    RunOneMore(before + rs[..n], rs[n]);
    RunOneMore(rs[..n], rs[n]);
    if n == 0 {
      EpochOfLast(before);
      assert before + rs[..0] == before && rs[..0] == [];
    } else {
      EpochStartsOver(before, rs[..n]);
    }
  }

  // ------------------------------------------------------------ one timeline

  function Readings(ss: seq<Sample>): (rs: seq<Reading>)
    ensures |rs| == |ss| && forall i :: 0 <= i < |ss| ==> rs[i] == Reading(ss[i].tCycles, ss[i].epoch)
  {
    seq(|ss|, i requires 0 <= i < |ss| => Reading(ss[i].tCycles, ss[i].epoch))
  }

  /** The times the clock accepts. */
  function Accepted(rs: seq<Reading>): seq<nat> {
    if rs == [] then []
    else match Answer(rs)
      case None => Accepted(rs[..|rs| - 1])
      case Some(t) => Accepted(rs[..|rs| - 1]) + [t]
  }

  function Times(records: seq<Record>): (ts: seq<nat>)
    ensures |ts| == |records| && forall i :: 0 <= i < |records| ==> ts[i] == records[i].elapsed
  {
    seq(|records|, i requires 0 <= i < |records| => records[i].elapsed)
  }

  ghost predicate SameEpoch(ss: seq<Sample>) {
    forall i, j :: 0 <= i <= j < |ss| ==> ss[i].epoch == ss[j].epoch
  }

  /** The two clocks are in step. */
  ghost predicate InStep(c: State, time: Option<Timeline>, epoch: u16) {
    match time
    case None => c == FRESH
    case Some(tl) =>
      && c.haveEpoch && c.epoch == epoch == tl.baseEpoch
      && c.last == tl.last && c.wrap == tl.wrap && c.baseAbs == tl.base
  }

  lemma TicksAgree(c: State, time: Option<Timeline>, s: Sample)
    requires InStep(c, time, s.epoch) && Settled(c)
    ensures var (next, answer) := Tick(c, s.tCycles, s.epoch);
            match time
            case None => InStep(next, Some(Started(s)), s.epoch) && answer == Some(0)
            case Some(tl) =>
              var (tl', at) := SampleTick(tl, s.tCycles, s.epoch);
              InStep(next, Some(tl'), s.epoch) && answer == at
  {}

  /** The recorder and the gateway accept the same samples of an epoch, at the
      same elapsed cycles. */
  lemma {:induction false} OneTimelineFromFresh(ss: seq<Sample>)
    requires SameEpoch(ss)
    ensures InStep(Run(Readings(ss)), T.Recorded(ss).0, if ss == [] then 0 else ss[0].epoch)
    ensures Accepted(Readings(ss)) == Times(T.Recorded(ss).1)
  {
    if ss != [] {
      var n := |ss| - 1;
      OneTimelineFromFresh(ss[..n]);
      assert ss[n].epoch == ss[0].epoch;
      assert Readings(ss)[..n] == Readings(ss[..n]);
      RunIsSettled(Readings(ss[..n]));
      TicksAgree(Run(Readings(ss[..n])), T.Recorded(ss[..n]).0, ss[n]);
    }
  }

  /** So the clock too tells true elapsed times, through any number of wraps. */
  lemma AcceptedAreTrue(ss: seq<Sample>, ts: seq<nat>, epoch: u16)
    requires T.SampledAt(ss, ts, epoch) && T.Paced(ts) && ss != []
    ensures forall i :: 0 <= i < |ts| ==> ts[0] <= ts[i]
    ensures Accepted(Readings(ss)) == Times(T.Advancing(ss, ts))
  {
    OneTimelineFromFresh(ss);
    T.SamplesExact(ss, ts, epoch);
  }

  /** One sample of another epoch of the same 14 bits: the clocks still answer
      alike exactly when the recorder's time is back at its base. */
  lemma AnswersAgreeExactly(c: State, tl: Timeline, s: Sample)
    requires InStep(c, Some(tl), tl.baseEpoch) && Settled(c)
    ensures var answer := Tick(c, s.tCycles, s.epoch).1;
            var (tl', at) := SampleTick(tl, s.tCycles, s.epoch);
            answer == at <==> s.epoch == tl.baseEpoch || tl'.wrap + s.tCycles == tl.base
  {}

  /** They stay in step exactly when the 16 bits are the same. */
  lemma StepTogetherExactly(c: State, tl: Timeline, s: Sample)
    requires InStep(c, Some(tl), tl.baseEpoch) && Settled(c)
    ensures InStep(Tick(c, s.tCycles, s.epoch).0, Some(SampleTick(tl, s.tCycles, s.epoch).0), tl.baseEpoch)
       <==> s.epoch == tl.baseEpoch
  {}

  /** The two clocks are in step after the last sample, and after every sample. */
  ghost predicate InStepAfter(ss: seq<Sample>)
    requires ss != []
  {
    InStep(Run(Readings(ss)), T.Recorded(ss).0, ss[0].epoch)
  }

  ghost predicate InStepThroughout(ss: seq<Sample>) {
    ss != [] ==> InStepThroughout(ss[..|ss| - 1]) && InStepAfter(ss)
  }

  /** Over a run of samples the two clocks are in step throughout if and only if
      all 16 bits of their epochs are the same. */
  lemma {:induction false} InStepExactly(ss: seq<Sample>)
    ensures InStepThroughout(ss) <==> SameEpoch(ss)
  {
    if |ss| == 1 {
      assert InStepThroughout(ss[..0]);
      OneTimelineFromFresh(ss);
    } else if ss != [] {
      InStepExactly(ss[..|ss| - 1]);
      SameEpochOneMore(ss);
      if SameEpoch(ss[..|ss| - 1]) { LastInStepExactly(ss); }
    }
  }

  lemma SameEpochOneMore(ss: seq<Sample>)
    requires |ss| > 1
    ensures SameEpoch(ss) <==> SameEpoch(ss[..|ss| - 1]) && ss[|ss| - 1].epoch == ss[0].epoch
  {
    var k := |ss| - 1;
    if SameEpoch(ss[..k]) && ss[k].epoch == ss[0].epoch {
      forall i, j | 0 <= i <= j < |ss|
        ensures ss[i].epoch == ss[j].epoch
      {
        assert i < k ==> ss[..k][i] == ss[i] && ss[..k][0].epoch == ss[..k][i].epoch;
        assert j < k ==> ss[..k][j] == ss[j] && ss[..k][0].epoch == ss[..k][j].epoch;
      }
    }
  }

  lemma LastInStepExactly(ss: seq<Sample>)
    requires |ss| > 1 && SameEpoch(ss[..|ss| - 1])
    ensures InStepAfter(ss) <==> ss[|ss| - 1].epoch == ss[0].epoch
  {
    var k := |ss| - 1;
    OneTimelineFromFresh(ss[..k]);
    RunIsSettled(Readings(ss[..k]));
    T.RecordedBase(ss[..k]);
    assert Readings(ss)[..k] == Readings(ss[..k]);
    StepTogetherExactly(Run(Readings(ss[..k])), T.Recorded(ss[..k]).0.value, ss[k]);
  }

  /** A run from the start that parts the clocks: the same 14 bits, then another
      high bit one cycle later. The live clock starts over, the recorder does not. */
  lemma HighBitsPartTheClocks(a: Sample, b: Sample)
    requires a.epoch == 0 && b.epoch == 0x4000 && a.tCycles == 0 && b.tCycles == 1
    ensures Mask(a.epoch) == Mask(b.epoch)
    ensures Accepted(Readings([a, b])) == [0, 0] && Times(T.Recorded([a, b]).1) == [0, 1]
  {
    var ra, rb := Reading(0, 0), Reading(1, 0x4000);
    assert Readings([a, b]) == [ra, rb] && [ra, rb][..1] == [ra] && [ra][..0] == [];
    assert Run([ra]) == Tick(FRESH, 0, 0).0;
    assert Accepted([ra]) == [] + [0] && Answer([ra, rb]) == Some(0);
    assert [a, b][..1] == [a] && [a][..0] == [];
    assert T.Recorded([a]) == (Some(Started(a)), [] + [Stored(0, a)]);
    assert T.Recorded([a, b]).1 == [Stored(0, a)] + [Stored(1, b)];
  }
}
