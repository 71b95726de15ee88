/** One epoch of a capture: the stored timelines are the true ones, and how the
    two streams interleave does not matter. */
module CaptureTimeline {
  import opened Bytes
  import opened Counters
  import opened Frame
  import opened Capture
  import opened Wrappers

  // ------------------------------------------------------------ canonical form

  function SamplesOf(xs: seq<Arrival>): seq<Sample> {
    if xs == [] then []
    else match xs[|xs| - 1]
      case SampleArrival(s) => SamplesOf(xs[..|xs| - 1]) + [s]
      case PwmArrival(_) => SamplesOf(xs[..|xs| - 1])
  }

  function EventsOf(xs: seq<Arrival>): seq<Event> {
    if xs == [] then []
    else match xs[|xs| - 1]
      case SampleArrival(_) => EventsOf(xs[..|xs| - 1])
      case PwmArrival(e) => EventsOf(xs[..|xs| - 1]) + [e]
  }

  /** The sample side of a capture, from its samples alone. */
  function Recorded(ss: seq<Sample>): (Option<Timeline>, seq<Record>) {
    if ss == [] then (None, [])
    else
      var (time, records) := Recorded(ss[..|ss| - 1]);
      var s := ss[|ss| - 1];
      match time
      case None => (Some(Started(s)), records + [Stored(0, s)])
      case Some(tl) =>
        var (next, at) := SampleTick(tl, s.tCycles, s.epoch);
        (Some(next), if at.None? then records else records + [Stored(at.value, s)])
  }

  /** The event side, from its events and the base alone. */
  function Placed(base: u32, es: seq<Event>): Pwm {
    if es == [] then NO_PWM else AppendPwm(base, Placed(base, es[..|es| - 1]), es[|es| - 1])
  }

  function Canonical(epoch: epoch14, ss: seq<Sample>, es: seq<Event>): Capture {
    if ss == [] && es == [] then EMPTY
    else if ss == [] then Capture(Some(epoch), None, [], NO_PWM, es)
    else Capture(Some(epoch), Recorded(ss).0, Recorded(ss).1, Placed(ss[0].tCycles, es), [])
  }

  lemma {:induction false} RecordedBase(ss: seq<Sample>)
    requires ss != []
    ensures Recorded(ss).0.Some? && Recorded(ss).0.value.base == ss[0].tCycles
  {
    if |ss| > 1 {
      RecordedBase(ss[..|ss| - 1]);
    } else {
      assert Recorded(ss[..0]).0 == None;
    }
  }

  lemma {:induction false} HeldBackArePlaced(base: u32, es: seq<Event>, epoch: epoch14)
    requires forall e :: e in es ==> Mask(e.epoch) == epoch
    ensures AppendAll(base, NO_PWM, es, Some(epoch)) == Placed(base, es)
  {
    if es != [] {
      assert es[|es| - 1] in es;
      HeldBackArePlaced(base, es[..|es| - 1], epoch);
    }
  }

  lemma CanonicalSample(epoch: epoch14, ss: seq<Sample>, es: seq<Event>, s: Sample)
    requires Mask(s.epoch) == epoch && forall e :: e in es ==> Mask(e.epoch) == epoch
    ensures Arrive(Canonical(epoch, ss, es), SampleArrival(s)) == Canonical(epoch, ss + [s], es)
  {
    assert (ss + [s])[..|ss|] == ss;
    if ss == [] {
      HeldBackArePlaced(s.tCycles, es, epoch);
      assert Recorded(ss + [s]) == (Some(Started(s)), [] + [Stored(0, s)]);
      if es == [] {
        assert Prepare(EMPTY, s.epoch).0 == Capture(Some(epoch), None, [], NO_PWM, es);
      }
    } else {
      RecordedBase(ss);
    }
  }

  lemma CanonicalEvent(epoch: epoch14, ss: seq<Sample>, es: seq<Event>, e: Event)
    requires Mask(e.epoch) == epoch && |es| < MAX_PWM_EVENTS
    ensures Arrive(Canonical(epoch, ss, es), PwmArrival(e)) == Canonical(epoch, ss, es + [e])
  {
    assert (es + [e])[..|es|] == es;
    if ss != [] { RecordedBase(ss); }
  }

  ghost predicate OneEpoch(xs: seq<Arrival>, epoch: epoch14) {
    forall x :: x in xs ==> Mask(x.Epoch()) == epoch
  }

  lemma {:induction false} EventsAreOfEpoch(xs: seq<Arrival>, epoch: epoch14)
    requires OneEpoch(xs, epoch)
    ensures forall e :: e in EventsOf(xs) ==> Mask(e.epoch) == epoch
  {
    if xs != [] {
      assert xs[|xs| - 1] in xs;
      EventsAreOfEpoch(xs[..|xs| - 1], epoch);
    }
  }

  /** Within one epoch a capture is a function of its two streams: the events it
      stores depend on the first sample, never on when the samples came. */
  lemma {:induction false} CanonicalForm(xs: seq<Arrival>, epoch: epoch14)
    requires OneEpoch(xs, epoch) && |EventsOf(xs)| <= MAX_PWM_EVENTS
    ensures Run(xs) == Canonical(epoch, SamplesOf(xs), EventsOf(xs))
  {
    if xs != [] {
      var before := xs[..|xs| - 1];
      assert xs[|xs| - 1] in xs;
      CanonicalForm(before, epoch);
      EventsAreOfEpoch(before, epoch);
      match xs[|xs| - 1] {
        case SampleArrival(s) => CanonicalSample(epoch, SamplesOf(before), EventsOf(before), s);
        case PwmArrival(e) => CanonicalEvent(epoch, SamplesOf(before), EventsOf(before), e);
      }
    }
  }

  /** Two interleavings of the same streams leave the same capture. */
  lemma OrderIndependent(xs: seq<Arrival>, ys: seq<Arrival>, epoch: epoch14)
    requires OneEpoch(xs, epoch) && OneEpoch(ys, epoch)
    requires SamplesOf(xs) == SamplesOf(ys) && EventsOf(xs) == EventsOf(ys)
    requires |EventsOf(xs)| <= MAX_PWM_EVENTS
    ensures Run(xs) == Run(ys)
  {
    CanonicalForm(xs, epoch);
    CanonicalForm(ys, epoch);
  }

  // ------------------------------------------------------------ true times

  /** The registers show the low words of true times that never fall back and
      never jump half a word. */
  ghost predicate Paced(ts: seq<nat>) {
    forall i, j :: 0 <= i < j < |ts| && j == i + 1 ==> ts[i] <= ts[j] < ts[i] + HALF
  }

  ghost predicate SampledAt(ss: seq<Sample>, ts: seq<nat>, epoch: u16) {
    |ss| == |ts| && forall i :: 0 <= i < |ss| ==> ss[i].tCycles == Low(ts[i]) && ss[i].epoch == epoch
  }

  /** The samples whose time advances, each with its true distance from the first. */
  function Advancing(ss: seq<Sample>, ts: seq<nat>): seq<Record>
    requires |ss| == |ts| && forall i :: 0 <= i < |ts| ==> ts[0] <= ts[i]
  {
    if ss == [] then []
    else
      var n := |ss| - 1;
      var rest := Advancing(ss[..n], ts[..n]);
      if n == 0 || ts[n] > ts[n - 1] then rest + [Stored(ts[n] - ts[0], ss[n])] else rest
  }

  /** Sample `i` is the first or later than the one before it. */
  predicate Advances(ts: seq<nat>, i: nat) { i < |ts| && (i == 0 || ts[i] > ts[i - 1]) }

  /** The indices of the samples that advance, in order. */
  ghost predicate AreAdvancing(idx: seq<nat>, ts: seq<nat>) {
    && (forall j, k :: 0 <= j < k < |idx| ==> idx[j] < idx[k])
    && (forall i :: i in idx <==> Advances(ts, i))
  }

  /** A record holds a sample's five measured words, each in its own place. */
  predicate HoldsSample(r: Record, s: Sample, elapsed: nat) {
    && r.elapsed == elapsed
    && r.ia == s.ia && r.ib == s.ib && r.fluxA == s.fluxA && r.fluxB == s.fluxB && r.speed == s.speed
  }

  ghost predicate HoldSamples(rs: seq<Record>, idx: seq<nat>, ss: seq<Sample>, ts: seq<nat>)
    requires |ss| == |ts| && forall i :: 0 <= i < |ts| ==> ts[0] <= ts[i]
  {
    && |rs| == |idx|
    && forall j :: 0 <= j < |idx| ==> idx[j] < |ss| && HoldsSample(rs[j], ss[idx[j]], ts[idx[j]] - ts[0])
  }

  /** The records are those of the advancing samples, field by field. */
  lemma {:induction false} AdvancingByFields(ss: seq<Sample>, ts: seq<nat>) returns (idx: seq<nat>)
    requires |ss| == |ts| && forall i :: 0 <= i < |ts| ==> ts[0] <= ts[i]
    ensures AreAdvancing(idx, ts) && HoldSamples(Advancing(ss, ts), idx, ss, ts)
  {
    idx := [];
    if ss != [] {
      var n := |ss| - 1;
      FirstOfPrefix(ts, n);
      var before := AdvancingByFields(ss[..n], ts[..n]);
      AdvancingPrefix(before, ts, n);
      HoldOneMore(Advancing(ss[..n], ts[..n]), before, ss, ts, n);
      AdvancingOneMore(ss, ts, n);
      idx := if Advances(ts, n) then before + [n] else before;
    }
  }

  lemma FirstOfPrefix(ts: seq<nat>, n: nat)
    requires n < |ts| && forall i :: 0 <= i < |ts| ==> ts[0] <= ts[i]
    ensures forall i :: 0 <= i < |ts[..n]| ==> ts[..n][0] <= ts[..n][i]
  {}

  lemma AdvancingOneMore(ss: seq<Sample>, ts: seq<nat>, n: nat)
    requires |ss| == |ts| == n + 1 && forall i :: 0 <= i < |ts| ==> ts[0] <= ts[i]
    ensures forall i :: 0 <= i < |ts[..n]| ==> ts[..n][0] <= ts[..n][i]
    ensures Advancing(ss, ts)
         == if Advances(ts, n) then Advancing(ss[..n], ts[..n]) + [Stored(ts[n] - ts[0], ss[n])]
            else Advancing(ss[..n], ts[..n])
  {}

  lemma HoldOneMore(rs: seq<Record>, before: seq<nat>, ss: seq<Sample>, ts: seq<nat>, n: nat)
    requires |ss| == |ts| == n + 1 && forall i :: 0 <= i < |ts| ==> ts[0] <= ts[i]
    requires HoldSamples(rs, before, ss[..n], ts[..n])
    ensures HoldSamples(rs, before, ss, ts)
    ensures HoldSamples(rs + [Stored(ts[n] - ts[0], ss[n])], before + [n], ss, ts)
  {
    forall j | 0 <= j < |before|
      ensures before[j] < n && HoldsSample(rs[j], ss[before[j]], ts[before[j]] - ts[0])
    {
      assert ss[..n][before[j]] == ss[before[j]] && ts[..n][before[j]] == ts[before[j]] && ts[..n][0] == ts[0];
    }
  }

  lemma AdvancingPrefix(before: seq<nat>, ts: seq<nat>, n: nat)
    requires n + 1 == |ts| && AreAdvancing(before, ts[..n])
    ensures AreAdvancing(if Advances(ts, n) then before + [n] else before, ts)
  {
    forall i: nat
      ensures i in before <==> i < n && Advances(ts, i)
    {
      assert i < n ==> ts[..n][i] == ts[i];
      assert 0 < i < n ==> ts[..n][i - 1] == ts[i - 1];
    }
    forall j | 0 <= j < |before|
      ensures before[j] < n
    {
      assert before[j] in before;
    }
  }

  /** An unwrapping state that has followed the true time `t` from the block of
      `b` on. */
  predicate Follows(last: u32, wrap: nat, b: nat, t: nat) {
    last == Low(t) && wrap == WORD * (t / WORD - b / WORD)
  }

  lemma FollowsOn(last: u32, wrap: nat, b: nat, prev: nat, t: nat)
    requires Follows(last, wrap, b, prev) && prev <= t < prev + HALF
    ensures Follows(Low(t), if Wrapped(last, Low(t)) then wrap + WORD else wrap, b, t)
    ensures Low(t) <= last && !Wrapped(last, Low(t)) <==> t == prev
  {
    WrapTracks(prev, t);
  }

  /** A followed time lies as far from the base as the true one. */
  lemma FollowedDistance(last: u32, wrap: nat, b: nat, t: nat)
    requires Follows(last, wrap, b, t)
    ensures wrap + last - Low(b) == t - b
  {}

  lemma NextSample(tl: Timeline, b: nat, prev: nat, t: nat)
    requires Follows(tl.last, tl.wrap, b, prev) && tl.base == Low(b) && b <= prev <= t < prev + HALF
    ensures var (next, at) := SampleTick(tl, Low(t), tl.baseEpoch);
      && Follows(next.last, next.wrap, b, t) && next.base == tl.base && next.baseEpoch == tl.baseEpoch
      && at == if t > prev then Some(t - b) else None
  {
    FollowsOn(tl.last, tl.wrap, b, prev, t);
    var (next, at) := SampleTick(tl, Low(t), tl.baseEpoch);
    FollowedDistance(next.last, next.wrap, b, t);
  }

  /** The sample side has followed the true times `ts`. */
  ghost predicate SamplesFollow(ss: seq<Sample>, ts: seq<nat>, epoch: u16)
    requires |ss| == |ts| > 0
  {
    && (forall i :: 0 <= i < |ts| ==> ts[0] <= ts[i])
    && Recorded(ss).0.Some?
    && (var tl := Recorded(ss).0.value;
        Follows(tl.last, tl.wrap, ts[0], ts[|ts| - 1]) && tl.base == Low(ts[0]) && tl.baseEpoch == epoch)
    && Recorded(ss).1 == Advancing(ss, ts)
  }

  lemma FirstSampleFollows(s: Sample, t: nat)
    requires s.tCycles == Low(t)
    ensures SamplesFollow([s], [t], s.epoch)
  {
    assert [s] == [] + [s] && [t] == [] + [t];
    assert Recorded([s][..0]) == (None, []);
  }

  lemma SampleFollows(ss: seq<Sample>, ts: seq<nat>, s: Sample, t: nat)
    requires |ss| == |ts| > 0 && SamplesFollow(ss, ts, s.epoch)
    requires s.tCycles == Low(t) && ts[|ts| - 1] <= t < ts[|ts| - 1] + HALF
    ensures SamplesFollow(ss + [s], ts + [t], s.epoch)
  {
    assert (ss + [s])[..|ss|] == ss && (ts + [t])[..|ts|] == ts;
    NextSample(Recorded(ss).0.value, ts[0], ts[|ts| - 1], t);
  }

  /** Through any number of wraps the stored sample times are true elapsed times. */
  lemma {:induction false} SamplesExact(ss: seq<Sample>, ts: seq<nat>, epoch: u16)
    requires SampledAt(ss, ts, epoch) && Paced(ts) && ss != []
    ensures SamplesFollow(ss, ts, epoch)
  {
    var n := |ss| - 1;
    if n == 0 {
      assert ss == [ss[0]] && ts == [ts[0]];
      FirstSampleFollows(ss[0], ts[0]);
    } else {
      SamplesExact(ss[..n], ts[..n], epoch);
      assert ts[n - 1] <= ts[n] < ts[n - 1] + HALF;
      SampleFollows(ss[..n], ts[..n], ss[n], ts[n]);
      assert ss == ss[..n] + [ss[n]] && ts == ts[..n] + [ts[n]];
    }
  }

  /** By how much a first event at `t` is unwrapped short of its true place. */
  function Shift(b: nat, t: nat): int { WORD * BlocksShort(b, t) }

  function BlocksShort(b: nat, t: nat): int {
    t / WORD - b / WORD - (if Wrapped(Low(b), Low(t)) then 1 else 0)
  }

  /** The first event is unwrapped rightly: it lies within reach of the base, and
      not in an earlier block of the counter. */
  predicate FirstInReach(b: nat, t: nat) {
    || (t / WORD == b / WORD && b - t <= HALF)
    || (t / WORD == b / WORD + 1 && t - b < HALF)
  }

  /** That is exactly when it is unwrapped to its true place. */
  lemma FirstPlacedExactly(b: nat, t: nat)
    ensures Follows(Low(t), PwmTick(Low(b), None, Low(t)).wrap, b, t) <==> FirstInReach(b, t)
    ensures Shift(b, t) == 0 <==> FirstInReach(b, t)
  {}

  /** The first event, misplaced or not, is rightly kept or dropped: within half a
      word below the base in its own block or in the low word of an earlier one, or
      not so in a later block. */
  predicate FirstKeptRightly(b: nat, t: nat) {
    var shortOf := Low(t) < Low(b) && Low(b) - Low(t) <= HALF;
    if t / WORD == b / WORD then b - t <= HALF
    else if t / WORD < b / WORD then shortOf
    else !shortOf
  }

  lemma BlockOrder(b: nat, t: nat)
    ensures t / WORD < b / WORD ==> t < b
    ensures t / WORD == b / WORD ==> t - b == Low(t) - Low(b)
  {}

  /** A first event is stored exactly when it does not precede the base, under
      that condition and no other. */
  lemma FirstStoredExactly(b: nat, t: nat, e: Event)
    requires e.tCycles == Low(t)
    ensures (|AppendPwm(Low(b), NO_PWM, e).records| == 1 <==> t >= b) <==> FirstKeptRightly(b, t)
  {
    BlockOrder(b, t);
    BlockOrder(t, b);
  }

  /** Both failures happen: an event of an earlier block, and one more than half a
      word early, are stored although they precede the base; one of the next block
      is dropped although it does not. */
  lemma FirstKeptWrongly(e: Event)
    ensures 5 < WORD && |AppendPwm(Low(WORD), NO_PWM, e.(tCycles := Low(5))).records| == 1
    ensures 0 < HALF + 1 && |AppendPwm(Low(HALF + 1), NO_PWM, e.(tCycles := Low(0))).records| == 1
    ensures WORD >= 1 && |AppendPwm(Low(1), NO_PWM, e.(tCycles := Low(WORD))).records| == 0
  {}

  ghost predicate SeenAt(es: seq<Event>, ts: seq<nat>) {
    |es| == |ts| && forall i :: 0 <= i < |es| ==> es[i].tCycles == Low(ts[i])
  }

  /** An event as it is stored, `distance` after the base. */
  function StoredEvent(distance: nat, e: Event): PwmRecord { PwmRecord(Low(distance), e.a, e.b, e.c) }

  /** The events from `b` on, each with (32 bits of) its true distance. */
  function FromBase(b: int, es: seq<Event>, ts: seq<nat>): (kept: seq<PwmRecord>)
    requires |es| == |ts|
    ensures |kept| <= |es|
  {
    if es == [] then []
    else
      var n := |es| - 1;
      var rest := FromBase(b, es[..n], ts[..n]);
      if ts[n] < b then rest else rest + [StoredEvent(ts[n] - b, es[n])]
  }

  /** An unwrapping state that has followed the true time `t`, `shift` short. */
  predicate FollowsShort(k: PwmClock, b: nat, shift: int, t: nat) {
    k.last == Low(t) && k.wrap == WORD * (t / WORD - b / WORD) - shift
  }

  lemma AppendOne(b: nat, shift: int, p: Pwm, e: Event, t: nat)
    requires |p.records| < MAX_PWM_EVENTS && e.tCycles == Low(t)
    requires FollowsShort(PwmTick(Low(b), p.clock, Low(t)), b, shift, t)
    ensures AppendPwm(Low(b), p, e).records
         == if t < b + shift then p.records else p.records + [StoredEvent(t - b - shift, e)]
  {}

  /** The event side has followed the true times `ts`: it stores the events from
      the base on, the base taken as far off as the first event was misplaced. */
  ghost predicate EventsFollow(b: nat, es: seq<Event>, ts: seq<nat>)
    requires |es| == |ts| > 0
  {
    var p, shift := Placed(Low(b), es), Shift(b, ts[0]);
    && p.clock.Some? && FollowsShort(p.clock.value, b, shift, ts[|ts| - 1])
    && p.records == FromBase(b + shift, es, ts)
  }

  lemma FirstTick(b: nat, t: nat)
    ensures FollowsShort(PwmTick(Low(b), None, Low(t)), b, Shift(b, t), t)
  {}

  lemma PlacedOne(base: u32, e: Event)
    ensures Placed(base, [e]) == AppendPwm(base, NO_PWM, e)
  {
    assert [e][..0] == [] && Placed(base, []) == NO_PWM;
  }

  lemma FromBaseOne(b: int, e: Event, t: nat)
    ensures FromBase(b, [e], [t]) == if t < b then [] else [StoredEvent(t - b, e)]
  {
    assert [e][..0] == [] && [t][..0] == [] && FromBase(b, [], []) == [];
  }

  lemma FirstEventFollows(b: nat, e: Event, t: nat)
    requires e.tCycles == Low(t)
    ensures EventsFollow(b, [e], [t])
  {
    var shift := Shift(b, t);
    FirstTick(b, t);
    PlacedOne(Low(b), e);
    FromBaseOne(b + shift, e, t);
    AppendOne(b, shift, NO_PWM, e, t);
  }

  lemma EventFollows(b: nat, es: seq<Event>, ts: seq<nat>, e: Event, t: nat)
    requires |es| == |ts| > 0 && EventsFollow(b, es, ts) && |es| < MAX_PWM_EVENTS
    requires e.tCycles == Low(t) && ts[|ts| - 1] <= t < ts[|ts| - 1] + HALF
    ensures EventsFollow(b, es + [e], ts + [t])
  {
    assert (es + [e])[..|es|] == es && (ts + [t])[..|ts|] == ts;
    WrapTracks(ts[|ts| - 1], t);
    AppendOne(b, Shift(b, ts[0]), Placed(Low(b), es), e, t);
  }

  /** Wherever the first event lies: later events keep their true distances from
      it, so every stored distance is right modulo 2^32, and only where the cut at
      the base falls is off by the shift. */
  lemma {:induction false} EventsPlaced(b: nat, es: seq<Event>, ts: seq<nat>)
    requires SeenAt(es, ts) && Paced(ts) && es != [] && |es| <= MAX_PWM_EVENTS
    ensures EventsFollow(b, es, ts)
  {
    var n := |es| - 1;
    if n == 0 {
      assert es == [es[0]] && ts == [ts[0]];
      FirstEventFollows(b, es[0], ts[0]);
    } else {
      EventsPlaced(b, es[..n], ts[..n]);
      assert ts[n - 1] <= ts[n] < ts[n - 1] + HALF;
      EventFollows(b, es[..n], ts[..n], es[n], ts[n]);
      assert es == es[..n] + [es[n]] && ts == ts[..n] + [ts[n]];
    }
  }

  /** No event lies between the base and where the first event's misplacement
      moves it. */
  ghost predicate KeptRightly(b: nat, ts: seq<nat>) {
    ts != [] ==> SameSide(b, b + Shift(b, ts[0]), ts)
  }

  ghost predicate SameSide(b: int, c: int, ts: seq<nat>) {
    forall i :: 0 <= i < |ts| ==> (ts[i] < b <==> ts[i] < c)
  }

  lemma {:induction false} LaterCutKeepsFewer(b: int, c: int, es: seq<Event>, ts: seq<nat>)
    requires |es| == |ts| && b <= c
    ensures |FromBase(c, es, ts)| <= |FromBase(b, es, ts)|
    ensures !SameSide(b, c, ts) ==> |FromBase(c, es, ts)| < |FromBase(b, es, ts)|
  {
    if es != [] {
      var n := |es| - 1;
      LaterCutKeepsFewer(b, c, es[..n], ts[..n]);
      if SameSide(b, c, ts[..n]) && (ts[n] < b <==> ts[n] < c) {
        assert forall i :: 0 <= i < n ==> ts[..n][i] == ts[i];
      }
    }
  }

  lemma {:induction false} SameCut(b: int, blocks: int, es: seq<Event>, ts: seq<nat>)
    requires |es| == |ts| && SameSide(b, b + WORD * blocks, ts)
    ensures FromBase(b + WORD * blocks, es, ts) == FromBase(b, es, ts)
  {
    if es != [] {
      var n := |es| - 1;
      assert forall i :: 0 <= i < n ==> ts[..n][i] == ts[i];
      SameCut(b, blocks, es[..n], ts[..n]);
      if ts[n] >= b { SameLow(ts[n] - b, blocks); }
    }
  }

  lemma SameLow(d: nat, blocks: int)
    requires d - WORD * blocks >= 0
    ensures Low(d - WORD * blocks) == Low(d)
  {}

  /** Cut at `b` or a whole number of blocks off, the same events are kept exactly
      when none lies between. */
  lemma CutsAgreeExactly(b: int, blocks: int, es: seq<Event>, ts: seq<nat>)
    requires |es| == |ts|
    ensures FromBase(b + WORD * blocks, es, ts) == FromBase(b, es, ts) <==> SameSide(b, b + WORD * blocks, ts)
  {
    if SameSide(b, b + WORD * blocks, ts) {
      SameCut(b, blocks, es, ts);
    } else if blocks >= 0 {
      LaterCutKeepsFewer(b, b + WORD * blocks, es, ts);
    } else {
      LaterCutKeepsFewer(b + WORD * blocks, b, es, ts);
    }
  }

  /** The stored events are exactly those that do not precede the base, each with
      its true distance, if and only if none lies between the base and its shifted
      place. */
  lemma EventsExact(b: nat, es: seq<Event>, ts: seq<nat>)
    requires SeenAt(es, ts) && Paced(ts) && |es| <= MAX_PWM_EVENTS
    ensures Placed(Low(b), es).records == FromBase(b, es, ts) <==> KeptRightly(b, ts)
  {
    if es != [] {
      EventsPlaced(b, es, ts);
      CutsAgreeExactly(b, BlocksShort(b, ts[0]), es, ts);
    }
  }

  /** So they are when the first event is within reach. */
  lemma InReachKeptRightly(b: nat, ts: seq<nat>)
    requires ts != [] ==> FirstInReach(b, ts[0])
    ensures KeptRightly(b, ts)
  {
    if ts != [] { FirstPlacedExactly(b, ts[0]); }
  }

  /** The kept events are the last ones, in their order. */
  lemma {:induction false} KeptAreLast(b: int, es: seq<Event>, ts: seq<nat>)
    requires |es| == |ts| && forall i, j :: 0 <= i <= j < |ts| ==> ts[i] <= ts[j]
    ensures var kept := FromBase(b, es, ts);
            var m := |es| - |kept|;
      && (forall i :: 0 <= i < |ts| ==> (ts[i] < b <==> i < m))
      && (forall k :: m <= k < |ts| ==> kept[k - m] == StoredEvent(ts[k] - b, es[k]))
  {
    if es != [] {
      var n := |es| - 1;
      KeptAreLast(b, es[..n], ts[..n]);
      assert forall i :: 0 <= i < n ==> ts[..n][i] == ts[i] && es[..n][i] == es[i];
    }
  }

  /** The time stamps of the kept events are the low words of their distances. */
  lemma KeptStamp(b: nat, es: seq<Event>, ts: seq<nat>, k: nat)
    requires |es| == |ts| && forall i, j :: 0 <= i <= j < |ts| ==> ts[i] <= ts[j]
    requires k < |FromBase(b, es, ts)|
    ensures var i := |es| - |FromBase(b, es, ts)| + k;
            ts[i] >= b && FromBase(b, es, ts)[k].cycles == Low(ts[i] - b)
  {
    var kept := FromBase(b, es, ts);
    var i := |es| - |kept| + k;
    KeptAreLast(b, es, ts);
    assert kept[i - (|es| - |kept|)] == StoredEvent(ts[i] - b, es[i]);
  }

  /** A record holds an event's three leg vectors, each in its own place, and the low
      word of its distance. */
  predicate HoldsEvent(r: PwmRecord, e: Event, distance: nat) {
    r.cycles == Low(distance) && r.a == e.a && r.b == e.b && r.c == e.c
  }

  /** The records are those of the events from the base on, field by field. */
  ghost predicate HoldEvents(kept: seq<PwmRecord>, b: nat, es: seq<Event>, ts: seq<nat>)
    requires |es| == |ts|
  {
    && |kept| <= |es|
    && (forall i :: 0 <= i < |ts| ==> (ts[i] < b <==> i < |es| - |kept|))
    && (forall k :: |es| - |kept| <= k < |ts| ==>
          ts[k] >= b && HoldsEvent(kept[k - (|es| - |kept|)], es[k], ts[k] - b))
  }

  lemma FromBaseByFields(b: nat, es: seq<Event>, ts: seq<nat>)
    requires |es| == |ts| && forall i, j :: 0 <= i <= j < |ts| ==> ts[i] <= ts[j]
    ensures HoldEvents(FromBase(b, es, ts), b, es, ts)
  {
    KeptAreLast(b, es, ts);
    var kept := FromBase(b, es, ts);
    forall k | |es| - |kept| <= k < |ts|
      ensures ts[k] >= b && HoldsEvent(kept[k - (|es| - |kept|)], es[k], ts[k] - b)
    {
      assert kept[k - (|es| - |kept|)] == StoredEvent(ts[k] - b, es[k]);
    }
  }

  /** Every record of the last events holds the whole distance from the base. */
  ghost predicate WholeStamps(kept: seq<PwmRecord>, b: nat, ts: seq<nat>) {
    && |kept| <= |ts|
    && forall k :: 0 <= k < |kept| ==> kept[k].cycles == ts[|ts| - |kept| + k] - b
  }

  lemma ShortIsWhole(b: nat, t: nat)
    requires b <= t
    ensures Low(t - b) == t - b <==> t - b < WORD
  {}

  lemma WholeStampsExactly(b: nat, es: seq<Event>, ts: seq<nat>)
    requires |es| == |ts| > 0 && ts[|ts| - 1] >= b
    requires forall i, j :: 0 <= i <= j < |ts| ==> ts[i] <= ts[j]
    ensures WholeStamps(FromBase(b, es, ts), b, ts) <==> ts[|ts| - 1] - b < WORD
  {
    var kept := FromBase(b, es, ts);
    LastIsKept(b, es, ts);
    if ts[|ts| - 1] - b < WORD {
      forall k | 0 <= k < |kept|
        ensures kept[k].cycles == ts[|ts| - |kept| + k] - b
      {
        KeptStamp(b, es, ts, k);
        ShortIsWhole(b, ts[|ts| - |kept| + k]);
      }
    } else {
      KeptStamp(b, es, ts, |kept| - 1);
      ShortIsWhole(b, ts[|ts| - 1]);
    }
  }

  /** Every stored time stamp is the whole distance of its event from the base if
      and only if the last one lies less than 2^32 cycles behind it. */
  lemma WholeDistancesExactly(b: nat, es: seq<Event>, ts: seq<nat>)
    requires SeenAt(es, ts) && Paced(ts) && 0 < |es| <= MAX_PWM_EVENTS && KeptRightly(b, ts)
    requires ts[|ts| - 1] >= b
    ensures WholeStamps(Placed(Low(b), es).records, b, ts) <==> ts[|ts| - 1] - b < WORD
  {
    EventsExact(b, es, ts);
    PacedRises(ts);
    WholeStampsExactly(b, es, ts);
  }

  lemma LastIsKept(b: nat, es: seq<Event>, ts: seq<nat>)
    requires |es| == |ts| > 0 && ts[|ts| - 1] >= b
    ensures FromBase(b, es, ts) != []
  {}

  lemma {:induction false} PacedRises(ts: seq<nat>)
    requires Paced(ts)
    ensures forall i, j :: 0 <= i <= j < |ts| ==> ts[i] <= ts[j]
  {
    if ts != [] {
      var n := |ts| - 1;
      PacedRises(ts[..n]);
      assert forall i :: 0 <= i < n ==> ts[..n][i] == ts[i];
      if n > 0 { assert ts[n - 1] <= ts[n]; }
    }
  }

  /** Both streams at once: however they interleave, a capture of one epoch holds
      the advancing samples and, exactly when none lies between the base and its
      shifted place, the events from the base on, at their true distances from the
      first sample. */
  lemma CaptureExact(xs: seq<Arrival>, epoch: u16, sampleTimes: seq<nat>, eventTimes: seq<nat>)
    requires OneEpoch(xs, Mask(epoch))
    requires SampledAt(SamplesOf(xs), sampleTimes, epoch) && Paced(sampleTimes) && SamplesOf(xs) != []
    requires SeenAt(EventsOf(xs), eventTimes) && Paced(eventTimes)
    requires |EventsOf(xs)| <= MAX_PWM_EVENTS
    ensures forall i :: 0 <= i < |sampleTimes| ==> sampleTimes[0] <= sampleTimes[i]
    ensures Run(xs).records == Advancing(SamplesOf(xs), sampleTimes)
    ensures Run(xs).pwm.records == FromBase(sampleTimes[0], EventsOf(xs), eventTimes)
       <==> KeptRightly(sampleTimes[0], eventTimes)
  {
    CanonicalForm(xs, Mask(epoch));
    SamplesExact(SamplesOf(xs), sampleTimes, epoch);
    EventsExact(sampleTimes[0], EventsOf(xs), eventTimes);
  }

  /** Without a sample nothing is stored: the events that wait for a base are
      lost when the capture ends. */
  lemma {:induction false} EventsNeedASample(xs: seq<Arrival>)
    requires SamplesOf(xs) == []
    ensures Run(xs).time == None && Run(xs).records == [] && Run(xs).pwm == NO_PWM
  {
    if xs != [] {
      EventsNeedASample(xs[..|xs| - 1]);
    }
  }
}
