/** Where the events of one epoch went: the recorder's count of lost events over
    whole runs (recorder.go). */
module CaptureCounts {
  import opened Bytes
  import opened Capture
  import opened CaptureTimeline
  import opened Frame
  import opened Recorder
  import opened Wrappers

  /** An event is unwrapped to a time before the base, and is not kept. */
  predicate TooEarly(base: u32, clock: Option<PwmClock>, e: Event) {
    PwmTick(base, clock, e.tCycles).wrap + e.tCycles < base
  }

  /** How many of the events held back are too early once the base is known. */
  function EarlyHeld(base: u32, es: seq<Event>): nat {
    if es == [] then 0
    else
      var before, e := es[..|es| - 1], es[|es| - 1];
      EarlyHeld(base, before) + if TooEarly(base, Placed(base, before).clock, e) then 1 else 0
  }

  /** The events found too early by an arrival. */
  function EarlyBy(c: Capture, x: Arrival): nat {
    match x
    case SampleArrival(s) => if c.time.None? then EarlyHeld(s.tCycles, c.pending) else 0
    case PwmArrival(e) => if c.time.Some? && TooEarly(c.time.value.base, c.pwm.clock, e) then 1 else 0
  }

  function EarlyOver(xs: seq<Arrival>): nat {
    if xs == [] then 0
    else EarlyOver(xs[..|xs| - 1]) + EarlyBy(Run(xs[..|xs| - 1]), xs[|xs| - 1])
  }

  lemma {:induction false} HeldAreAccounted(base: u32, es: seq<Event>)
    requires |es| <= MAX_PWM_EVENTS
    ensures |Placed(base, es).records| + EarlyHeld(base, es) == |es|
  {
    if es != [] { HeldAreAccounted(base, es[..|es| - 1]); }
  }

  /** The events a capture has in hand. */
  function InHand(c: Capture): nat { |c.pending| + |c.pwm.records| }

  /** A capture of this epoch, or of none yet. */
  ghost predicate IsOf(c: Capture, epoch: epoch14) { Sound(c) && (c.epoch.None? || c.epoch == Some(epoch)) }

  lemma SampleAccounts(c: Capture, s: Sample, epoch: epoch14)
    requires IsOf(c, epoch) && Mask(s.epoch) == epoch
    ensures var x := SampleArrival(s);
            InHand(Arrive(c, x)) + EarlyBy(c, x) == InHand(c)
  {
    if c.time.None? {
      HeldBackArePlaced(s.tCycles, c.pending, epoch);
      HeldAreAccounted(s.tCycles, c.pending);
    }
  }

  lemma EventAccounts(c: Capture, e: Event, epoch: epoch14)
    requires IsOf(c, epoch) && Mask(e.epoch) == epoch
    ensures var x := PwmArrival(e);
            InHand(Arrive(c, x)) + LostBy(c, x) + EarlyBy(c, x) == InHand(c) + 1
  {}

  /** The epoch of a run of one epoch. */
  lemma {:induction false} RunIsOf(xs: seq<Arrival>, epoch: epoch14)
    requires OneEpoch(xs, epoch)
    ensures IsOf(Run(xs), epoch)
  {
    RunIsSound(xs);
    if xs != [] {
      assert xs[|xs| - 1] in xs;
      RunIsOf(xs[..|xs| - 1], epoch);
    }
  }

  /** Every event of an epoch is held back, stored, too early, or counted as lost. */
  lemma {:induction false} EventsAreAccounted(xs: seq<Arrival>, epoch: epoch14)
    requires OneEpoch(xs, epoch)
    ensures |EventsOf(xs)| == InHand(Run(xs)) + EarlyOver(xs) + LostOver(EMPTY, xs)
  {
    if xs != [] {
      var before, x := xs[..|xs| - 1], xs[|xs| - 1];
      assert x in xs;
      EventsAreAccounted(before, epoch);
      RunIsOf(before, epoch);
      AfterIsRun(before);
      match x {
        case SampleArrival(s) => SampleAccounts(Run(before), s, epoch);
        case PwmArrival(e) => EventAccounts(Run(before), e, epoch);
      }
    }
  }

  lemma AfterIsRun(xs: seq<Arrival>)
    ensures After(EMPTY, xs) == Run(xs)
  {
    assert [] + xs == xs && Run([]) == EMPTY;
    AfterRun([], xs);
  }

  lemma HeldIsShort(xs: seq<Arrival>, epoch: epoch14)
    requires OneEpoch(xs, epoch)
    ensures InHand(Run(xs)) <= |EventsOf(xs)|
  {
    EventsAreAccounted(xs, epoch);
  }

  /** The limits are the only reason: an event is counted as lost exactly if two
      million are in hand and it is not too early. */
  lemma LostExactly(xs: seq<Arrival>, e: Event, epoch: epoch14)
    requires OneEpoch(xs, epoch) && Mask(e.epoch) == epoch
    ensures var c := Run(xs);
            LostBy(c, PwmArrival(e)) == 1 <==> InHand(c) == 2_000_000 && EarlyBy(c, PwmArrival(e)) == 0
    ensures LostBy(Run(xs), PwmArrival(e)) <= 1
  {
    RunIsOf(xs, epoch);
  }

  /** So nothing is lost before that many events have come. */
  lemma {:induction false} NothingLostBelow(xs: seq<Arrival>, epoch: epoch14)
    requires OneEpoch(xs, epoch) && |EventsOf(xs)| <= 2_000_000
    ensures LostOver(EMPTY, xs) == 0
  {
    if xs != [] {
      var before, x := xs[..|xs| - 1], xs[|xs| - 1];
      NothingLostBelow(before, epoch);
      HeldIsShort(before, epoch);
      AfterIsRun(before);
      assert x in xs;
      match x {
        case SampleArrival(_) =>
        case PwmArrival(e) => LostExactly(before, e, epoch);
      }
    }
  }

  /** Whatever epochs come: an event of an older one is neither kept nor counted. */
  lemma OlderIsIgnored(c: Capture, x: Arrival)
    requires c.epoch.Some? && Mask(x.Epoch()) != c.epoch.value && !EpochNewer(Mask(x.Epoch()), c.epoch.value)
    ensures Arrive(c, x) == c && LostBy(c, x) == 0
  {}
}
