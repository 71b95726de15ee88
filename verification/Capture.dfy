/** What a capture holds, arrival by arrival: the recorder's state without its
    file (recorder.go). Two streams, each with a 32-bit wrapping counter and a
    14-bit wrapping epoch, are merged. */
module Capture {
  import opened Bytes
  import opened Counters
  import opened Frame
  import opened Wrappers

  const EPOCHS := 0x4000
  const MAX_PWM_EVENTS := 2_000_000

  type epoch14 = x: int | 0 <= x < EPOCHS

  datatype Event = Event(tCycles: u32, epoch: u16, a: byte, b: byte, c: byte)

  /** One stored sample: cycles since the first sample of the capture, and the
      measured words. */
  datatype Record = Record(elapsed: nat, ia: u32, ib: u32, fluxA: u32, fluxB: u32, speed: u32)

  datatype PwmRecord = PwmRecord(cycles: u32, a: byte, b: byte, c: byte)

  /** The sample clock: base and unwrapping state. */
  datatype Timeline = Timeline(baseEpoch: u16, last: u32, wrap: nat, base: u32)

  datatype PwmClock = PwmClock(last: u32, wrap: nat)

  /** The event side: its unwrapping state and the stored events. */
  datatype Pwm = Pwm(clock: Option<PwmClock>, records: seq<PwmRecord>)

  datatype Capture = Capture(epoch: Option<epoch14>, time: Option<Timeline>, records: seq<Record>,
                             pwm: Pwm, pending: seq<Event>)

  const NO_PWM := Pwm(None, [])
  const EMPTY := Capture(None, None, [], NO_PWM, [])

  // ------------------------------------------------------------ epochs

  function Mask(epoch: u16): epoch14 { epoch % EPOCHS }

  /** Serial-number order on 14-bit epochs. */
  predicate EpochNewer(next: epoch14, current: epoch14) {
    var delta := (next - current) % EPOCHS;
    delta != 0 && delta < EPOCHS / 2
  }

  /** The capture after admitting an arrival of some epoch, and whether it is
      admitted. A newer epoch starts the capture over. */
  function Prepare(c: Capture, epoch: u16): (Capture, bool) {
    var e := Mask(epoch);
    if c.epoch.None? then (c.(epoch := Some(e)), true)
    else if e == c.epoch.value then (c, true)
    else if !EpochNewer(e, c.epoch.value) then (c, false)
    else (EMPTY.(epoch := Some(e)), true)
  }

  // ------------------------------------------------------------ samples

  function Started(s: Sample): Timeline { Timeline(s.epoch, s.tCycles, 0, s.tCycles) }

  /** The clock after a later sample, and its elapsed cycles when it is kept. */
  function SampleTick(tl: Timeline, tCycles: u32, epoch: u16): (Timeline, Option<nat>) {
    if epoch == tl.baseEpoch && tCycles <= tl.last && !Wrapped(tl.last, tCycles) then (tl, None)
    else
      var wrap := if Wrapped(tl.last, tCycles) then tl.wrap + WORD else tl.wrap;
      var abs := wrap + tCycles;
      (tl.(last := tCycles, wrap := wrap), if abs < tl.base then None else Some(abs - tl.base))
  }

  function Stored(elapsed: nat, s: Sample): Record {
    Record(elapsed, s.ia, s.ib, s.fluxA, s.fluxB, s.speed)
  }

  // ------------------------------------------------------------ events

  function PwmTick(base: u32, clock: Option<PwmClock>, t: u32): PwmClock {
    match clock
    case None => PwmClock(t, if Wrapped(base, t) then WORD else 0)
    case Some(k) => PwmClock(t, if Wrapped(k.last, t) then k.wrap + WORD else k.wrap)
  }

  predicate PwmFull(base: u32, p: Pwm, e: Event) {
    PwmTick(base, p.clock, e.tCycles).wrap + e.tCycles >= base && |p.records| >= MAX_PWM_EVENTS
  }

  function AppendPwm(base: u32, p: Pwm, e: Event): Pwm {
    var k := PwmTick(base, p.clock, e.tCycles);
    var abs := k.wrap + e.tCycles;
    Pwm(Some(k),
        if abs < base || |p.records| >= MAX_PWM_EVENTS then p.records
        else p.records + [PwmRecord(Low(abs - base), e.a, e.b, e.c)])
  }

  /** The events held back, those of another epoch left out. */
  function AppendAll(base: u32, p: Pwm, es: seq<Event>, epoch: Option<epoch14>): Pwm {
    if es == [] then p
    else
      var e := es[|es| - 1];
      var before := AppendAll(base, p, es[..|es| - 1], epoch);
      if Some(Mask(e.epoch)) == epoch then AppendPwm(base, before, e) else before
  }

  // ------------------------------------------------------------ arrivals

  datatype Arrival = SampleArrival(sample: Sample) | PwmArrival(event: Event) {
    function Epoch(): u16 {
      match this
      case SampleArrival(s) => s.epoch
      case PwmArrival(e) => e.epoch
    }
  }

  /** A sample admitted to its epoch. */
  function TakeSample(c: Capture, s: Sample): Capture {
    match c.time
    case None =>
      c.(time := Some(Started(s)), records := c.records + [Stored(0, s)],
         pwm := AppendAll(s.tCycles, c.pwm, c.pending, c.epoch), pending := [])
    case Some(tl) =>
      var (next, at) := SampleTick(tl, s.tCycles, s.epoch);
      c.(time := Some(next),
         records := if at.None? then c.records else c.records + [Stored(at.value, s)])
  }

  /** An event admitted to its epoch: held back until the base is known. */
  function TakeEvent(c: Capture, e: Event): Capture {
    match c.time
    case None => if |c.pending| >= MAX_PWM_EVENTS then c else c.(pending := c.pending + [e])
    case Some(tl) => c.(pwm := AppendPwm(tl.base, c.pwm, e))
  }

  function Take(c: Capture, x: Arrival): Capture {
    match x
    case SampleArrival(s) => TakeSample(c, s)
    case PwmArrival(e) => TakeEvent(c, e)
  }

  function Arrive(c: Capture, x: Arrival): Capture {
    var (p, admitted) := Prepare(c, x.Epoch());
    if admitted then Take(p, x) else p
  }

  /** Events lost to the two limits by one admitted event. */
  function Lost(c: Capture, e: Event): nat {
    match c.time
    case None => if |c.pending| >= MAX_PWM_EVENTS then 1 else 0
    case Some(tl) => if PwmFull(tl.base, c.pwm, e) then 1 else 0
  }

  /** Events lost by an arrival of any kind. */
  function LostBy(c: Capture, x: Arrival): nat {
    var (p, admitted) := Prepare(c, x.Epoch());
    match x
    case SampleArrival(_) => 0
    case PwmArrival(e) => if admitted then Lost(p, e) else 0
  }

  function Run(xs: seq<Arrival>): Capture {
    if xs == [] then EMPTY else Arrive(Run(xs[..|xs| - 1]), xs[|xs| - 1])
  }

  lemma RunOneMore(xs: seq<Arrival>, x: Arrival)
    ensures Run(xs + [x]) == Arrive(Run(xs), x)
  {
    assert (xs + [x])[..|xs|] == xs;
  }

  /** The capture after some more arrivals. */
  function After(c: Capture, xs: seq<Arrival>): Capture {
    if xs == [] then c else Arrive(After(c, xs[..|xs| - 1]), xs[|xs| - 1])
  }

  lemma AfterOneMore(c: Capture, xs: seq<Arrival>, x: Arrival)
    ensures After(c, xs + [x]) == Arrive(After(c, xs), x)
  {
    assert (xs + [x])[..|xs|] == xs;
  }

  lemma {:induction false} AfterRun(xs: seq<Arrival>, ys: seq<Arrival>)
    ensures After(Run(xs), ys) == Run(xs + ys)
  {
    if ys == [] {
      assert xs + ys == xs;
    } else {
      var before, y := ys[..|ys| - 1], ys[|ys| - 1];
      assert ys == before + [y] && xs + ys == (xs + before) + [y];
      AfterRun(xs, before);
      AfterOneMore(Run(xs), before, y);
      RunOneMore(xs + before, y);
    }
  }

  // ------------------------------------------------------------ invariants

  /** What every reachable capture satisfies. */
  ghost predicate Sound(c: Capture) {
    && |c.pending| <= MAX_PWM_EVENTS && |c.pwm.records| <= MAX_PWM_EVENTS
    && (c.epoch.None? ==> c == EMPTY)
    && (c.time.None? ==> c.records == [] && c.pwm == NO_PWM)
    && (c.time.Some? ==> c.pending == [])
    && (forall e :: e in c.pending ==> Some(Mask(e.epoch)) == c.epoch)
  }

  lemma {:induction false} AppendAllIsShort(base: u32, p: Pwm, es: seq<Event>, epoch: Option<epoch14>)
    requires |p.records| + |es| <= MAX_PWM_EVENTS
    ensures |AppendAll(base, p, es, epoch).records| <= |p.records| + |es|
  {
    if es != [] { AppendAllIsShort(base, p, es[..|es| - 1], epoch); }
  }

  lemma ArriveKeepsSound(c: Capture, x: Arrival)
    requires Sound(c)
    ensures Sound(Arrive(c, x))
  {
    var (p, admitted) := Prepare(c, x.Epoch());
    match x {
      case SampleArrival(s) => AppendAllIsShort(s.tCycles, NO_PWM, p.pending, p.epoch);
      case PwmArrival(e) =>
    }
  }

  lemma {:induction false} RunIsSound(xs: seq<Arrival>)
    ensures Sound(Run(xs))
  {
    if xs != [] {
      RunIsSound(xs[..|xs| - 1]);
      ArriveKeepsSound(Run(xs[..|xs| - 1]), xs[|xs| - 1]);
    }
  }

  // ------------------------------------------------------------ newest epoch

  /** Serial order is the true order for epochs less than half the circle ahead
      and no more than half behind (RFC 1982, section 3.2). */
  lemma SerialOrder(next: nat, current: nat)
    requires next - current < EPOCHS / 2 && current - next <= EPOCHS / 2
    ensures EpochNewer(next % EPOCHS, current % EPOCHS) <==> next > current
    ensures next % EPOCHS == current % EPOCHS <==> next == current
  {}

  /** Within one turn of the circle it is exactly for those: half a turn ahead or
      more an epoch is taken for an old one, more than half a turn behind for a new
      one. */
  lemma SerialOrderExactly(next: nat, current: nat)
    requires -EPOCHS < next - current < EPOCHS
    ensures (EpochNewer(next % EPOCHS, current % EPOCHS) <==> next > current)
       <==> -EPOCHS / 2 <= next - current < EPOCHS / 2
  {}

  /** Further apart the decision repeats with every turn. */
  lemma SerialOrderTurns(next: nat, current: nat, turns: nat)
    ensures EpochNewer((next + EPOCHS * turns) % EPOCHS, current % EPOCHS)
       <==> EpochNewer(next % EPOCHS, current % EPOCHS)
  {}

  function Newest(es: seq<nat>): nat
    requires es != []
  {
    if |es| == 1 then es[0]
    else if es[|es| - 1] > Newest(es[..|es| - 1]) then es[|es| - 1]
    else Newest(es[..|es| - 1])
  }

  /** The arrivals of one true epoch, in order. */
  function Of(xs: seq<Arrival>, es: seq<nat>, epoch: nat): seq<Arrival>
    requires |xs| == |es|
  {
    if xs == [] then []
    else
      var rest := Of(xs[..|xs| - 1], es[..|es| - 1], epoch);
      if es[|es| - 1] == epoch then rest + [xs[|xs| - 1]] else rest
  }

  /** `es` are the true epochs of the arrivals, each within reach of the newest
      one before it. */
  ghost predicate TrueEpochs(xs: seq<Arrival>, es: seq<nat>) {
    && |xs| == |es|
    && (forall i :: 0 <= i < |xs| ==> Mask(xs[i].Epoch()) == es[i] % EPOCHS)
    && (forall i :: 0 < i < |xs| ==>
          && es[i] - Newest(es[..i]) < EPOCHS / 2
          && Newest(es[..i]) - es[i] <= EPOCHS / 2)
  }

  lemma {:induction false} NewestMeans(es: seq<nat>)
    requires es != []
    ensures Newest(es) in es && forall i :: 0 <= i < |es| ==> es[i] <= Newest(es)
  {
    if |es| > 1 { NewestMeans(es[..|es| - 1]); }
  }

  lemma {:induction false} NoneOf(xs: seq<Arrival>, es: seq<nat>, epoch: nat)
    requires |xs| == |es| && forall i :: 0 <= i < |es| ==> es[i] != epoch
    ensures Of(xs, es, epoch) == []
  {
    if xs != [] { NoneOf(xs[..|xs| - 1], es[..|es| - 1], epoch); }
  }

  lemma PrefixEpochs(xs: seq<Arrival>, es: seq<nat>)
    requires TrueEpochs(xs, es) && xs != []
    ensures TrueEpochs(xs[..|xs| - 1], es[..|es| - 1])
  {
    var n := |xs| - 1;
    forall i | 0 < i < n
      ensures es[..n][..i] == es[..i]
    {}
  }

  /** A newer epoch starts over: what was there before does not matter. */
  lemma NewerStartsOver(c: Capture, x: Arrival)
    requires c.epoch.Some? && EpochNewer(Mask(x.Epoch()), c.epoch.value)
    ensures Arrive(c, x) == Run([x])
  {
    assert [x] == [] + [x];
    RunOneMore([], x);
  }

  /** The capture keeps the newest epoch, and holds exactly what its arrivals
      alone would have left: every other arrival might as well not have been. */
  lemma {:induction false} KeepsNewestEpoch(xs: seq<Arrival>, es: seq<nat>)
    requires TrueEpochs(xs, es) && xs != []
    ensures Run(xs).epoch == Some(Newest(es) % EPOCHS)
    ensures Run(xs) == Run(Of(xs, es, Newest(es)))
    decreases |xs|
  {
    var n := |xs| - 1;
    if n == 0 {
      assert xs == [xs[0]] && xs[..0] == [];
      assert Of(xs, es, es[0]) == [] + [xs[0]];
    } else {
      var was, now := Newest(es[..n]), es[n];
      PrefixEpochs(xs, es);
      KeepsNewestEpoch(xs[..n], es[..n]);
      SerialOrder(now, was);
      if now > was {
        NewestMeans(es[..n]);
        NoneOf(xs[..n], es[..n], now);
        NewerStartsOver(Run(xs[..n]), xs[n]);
        assert Of(xs, es, now) == [xs[n]];
      } else if now == was {
        RunOneMore(Of(xs[..n], es[..n], was), xs[n]);
      }
    }
  }
}
