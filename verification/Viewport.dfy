/** The debounced, single-flight viewport query (viewport.ts) on its event loop:
    requests, timer callbacks, fetch completions or failures, and session resets
    in any order. */
module Viewport {
  import opened Wrappers

  /** A number of the view; two are the same unless one is no number. */
  datatype Number = Finite(value: real) | PlusInfinity | MinusInfinity | NaN

  predicate Same(x: Number, y: Number) { x != NaN && x == y }

  datatype Window = Window(from: Number, to: Number, width: Number) {
    predicate HasNaN() { from == NaN || to == NaN || width == NaN }
  }

  /** A fetch not yet settled, with the generation read when it was issued (if
      there is a generation provider). */
  datatype Fetch = Fetch(window: Window, generation: Option<nat>)

  /** A response handed to the view: its window, and the generations at issue and
      at delivery. */
  datatype Delivery = Delivery(window: Window, issued: Option<nat>, current: Option<nat>)

  /** The controller, and what the event loop holds for it: the armed timers and
      the fetches under way. The logs list the windows fetched, the requests not
      ignored, and the deliveries. */
  datatype State = State(
    timer: Option<nat>, pending: Option<Window>, inFlight: Option<Window>,
    armed: set<nat>, nextTimer: nat, fetches: seq<Fetch>, provider: bool, generation: nat,
    fetched: seq<Window>, accepted: seq<Window>, delivered: seq<Delivery>)

  function Initial(provider: bool): State {
    State(None, None, None, {}, 0, [], provider, 0, [], [], [])
  }

  datatype Step = Request(window: Window) | Fire(id: nat) | Settle(i: nat, ok: bool) | Bump

  predicate SameWindow(a: Option<Window>, b: Window) {
    a.Some? && Same(a.value.from, b.from) && Same(a.value.to, b.to) && Same(a.value.width, b.width)
  }

  function Generation(s: State): Option<nat> { if s.provider then Some(s.generation) else None }

  predicate Enabled(s: State, step: Step) {
    match step
    case Request(_) => true
    case Fire(id) => id in s.armed
    case Settle(i, _) => i < |s.fetches|
    case Bump => true
  }

  /** Arms a new timer. */
  function Arm(s: State): State {
    s.(timer := Some(s.nextTimer), armed := s.armed + {s.nextTimer}, nextTimer := s.nextTimer + 1)
  }

  function Disarm(s: State): State {
    match s.timer
    case None => s
    case Some(id) => s.(armed := s.armed - {id})
  }

  function OnRequest(s: State, w: Window): State {
    if SameWindow(s.pending, w) || SameWindow(s.inFlight, w) then s
    else
      var t := s.(pending := Some(w), accepted := s.accepted + [w]);
      if s.inFlight.Some? then t else Arm(Disarm(t))
  }

  /** The synchronous part of a flush. */
  function OnFlush(s: State): State {
    var t := s.(timer := None);
    if s.inFlight.Some? || s.pending.None? then t
    else
      var w := s.pending.value;
      t.(pending := None, inFlight := Some(w), fetches := s.fetches + [Fetch(w, Generation(s))],
         fetched := s.fetched + [w])
  }

  /** The rest of it, once the fetch has settled. */
  function OnSettle(s: State, i: nat, ok: bool): State
    requires i < |s.fetches|
  {
    var f := s.fetches[i];
    var t := s.(inFlight := None, fetches := s.fetches[..i] + s.fetches[i + 1..],
                delivered := if ok && (!s.provider || f.generation == Generation(s))
                             then s.delivered + [Delivery(f.window, f.generation, Generation(s))] else s.delivered);
    if s.pending.Some? then Arm(t) else t
  }

  function Apply(s: State, step: Step): State
    requires Enabled(s, step)
  {
    match step
    case Request(w) => OnRequest(s, w)
    case Fire(id) => OnFlush(s.(armed := s.armed - {id}))
    case Settle(i, ok) => OnSettle(s, i, ok)
    case Bump => s.(generation := s.generation + 1)
  }

  function Run(provider: bool, steps: seq<Step>): Option<State> {
    if steps == [] then Some(Initial(provider))
    else match Run(provider, steps[..|steps| - 1])
      case None => None
      case Some(s) =>
        if Enabled(s, steps[|steps| - 1]) then Some(Apply(s, steps[|steps| - 1])) else None
  }

  // ------------------------------------------------------------ controller

  /** The controller as the object it is, on the event loop it runs on. */
  class Controller {
    var timer: Option<nat>
    var pending: Option<Window>
    var inFlight: Option<Window>
    const provider: bool
    var generation: nat
    var armed: set<nat>
    var nextTimer: nat
    var fetches: seq<Fetch>
    ghost var fetched: seq<Window>
    ghost var accepted: seq<Window>
    var delivered: seq<Delivery>

    ghost function Abstract(): State
      reads this
    {
      State(timer, pending, inFlight, armed, nextTimer, fetches, provider, generation, fetched, accepted, delivered)
    }

    constructor (provider: bool)
      ensures Abstract() == Initial(provider)
    {
      timer, pending, inFlight := None, None, None;
      this.provider, generation, armed, nextTimer := provider, 0, {}, 0;
      fetches, fetched, accepted, delivered := [], [], [], [];
    }

    method SetTimeout() returns (id: nat)
      modifies `armed, `nextTimer
      ensures id == old(nextTimer) && armed == old(armed) + {id} && nextTimer == id + 1
    {
      id := nextTimer;
      armed, nextTimer := armed + {id}, id + 1;
    }

    method Request(from: Number, to: Number, width: Number)
      modifies `timer, `pending, `armed, `nextTimer, `accepted
      ensures Abstract() == OnRequest(old(Abstract()), Window(from, to, width))
    {
      var next := Window(from, to, width);
      if SameWindow(pending, next) || SameWindow(inFlight, next) {
        return;
      }
      pending := Some(next);
      accepted := accepted + [next];
      if inFlight.Some? {
        return;
      }
      if timer.Some? {
        armed := armed - {timer.value};
      }
      var id := SetTimeout();
      timer := Some(id);
    }

    method Flush()
      modifies `timer, `pending, `inFlight, `fetches, `fetched
      ensures Abstract() == OnFlush(old(Abstract()))
    {
      timer := None;
      if inFlight.Some? || pending.None? {
        return;
      }
      var win := pending.value;
      pending := None;
      inFlight := Some(win);
      fetches := fetches + [Fetch(win, if provider then Some(generation) else None)];
      fetched := fetched + [win];
    }

    method Settled(i: nat, ok: bool)
      requires i < |fetches|
      modifies `timer, `inFlight, `armed, `nextTimer, `fetches, `delivered
      ensures Abstract() == OnSettle(old(Abstract()), i, ok)
    {
      var f := fetches[i];
      fetches := fetches[..i] + fetches[i + 1..];
      var now := if provider then Some(generation) else None;
      if ok && !(provider && f.generation != now) {
        delivered := delivered + [Delivery(f.window, f.generation, now)];
      }
      inFlight := None;
      if pending.Some? {
        var id := SetTimeout();
        timer := Some(id);
      }
    }
  }

  // ------------------------------------------------------------ invariant

  function Timers(t: Option<nat>): set<nat> {
    match t
    case None => {}
    case Some(id) => {id}
  }

  /** The window the view was last asked for, by the requests that counted. */
  function Wanted(s: State): Option<Window> {
    if s.pending.Some? then s.pending
    else if s.fetched == [] then None
    else Some(s.fetched[|s.fetched| - 1])
  }

  ghost predicate Inv(s: State) {
    && s.armed == Timers(s.timer) && (s.timer.Some? ==> s.timer.value < s.nextTimer)
    && (s.timer.Some? <==> s.pending.Some? && s.inFlight.None?)
    && (match s.inFlight
        case None => s.fetches == []
        case Some(w) =>
          && |s.fetches| == 1 && s.fetches[0].window == w && (s.fetches[0].generation.Some? <==> s.provider)
          && s.fetched != [] && s.fetched[|s.fetched| - 1] == w
          && !SameWindow(s.pending, w))
    && Wanted(s) == (if s.accepted == [] then None else Some(s.accepted[|s.accepted| - 1]))
    && (forall d :: d in s.delivered ==> d.issued == d.current)
  }

  lemma StepKeepsInv(s: State, step: Step)
    requires Inv(s) && Enabled(s, step)
    ensures Inv(Apply(s, step))
  {}

  lemma {:induction false} EveryRunKeepsInv(provider: bool, steps: seq<Step>)
    requires Run(provider, steps).Some?
    ensures Inv(Run(provider, steps).value)
  {
    if steps != [] {
      var before := steps[..|steps| - 1];
      EveryRunKeepsInv(provider, before);
      StepKeepsInv(Run(provider, before).value, steps[|steps| - 1]);
    }
  }

  // ------------------------------------------------------------ main results

  /** Over all interleavings: at most one fetch is under way; a timer is armed
      exactly while an idle controller has a pending window, so no window is ever
      stranded and no timer leaks; and what is delivered was issued in the
      generation it is delivered in. */
  lemma SingleFlight(provider: bool, steps: seq<Step>)
    requires Run(provider, steps).Some?
    ensures var s := Run(provider, steps).value;
      && |s.fetches| <= 1 && (s.inFlight.Some? <==> |s.fetches| == 1)
      && s.armed == Timers(s.timer)
      && (s.timer.Some? <==> s.pending.Some? && s.inFlight.None?)
      && (forall d :: d in s.delivered ==> d.issued == d.current)
  {
    EveryRunKeepsInv(provider, steps);
  }

  /** The guard of a flush is never taken: whenever its timer fires there is a
      window to fetch and nothing in the way. */
  lemma FlushAlwaysFetches(provider: bool, steps: seq<Step>, id: nat)
    requires Run(provider, steps).Some? && Enabled(Run(provider, steps).value, Fire(id))
    ensures var s := Run(provider, steps).value;
            s.inFlight.None? && s.pending.Some? && Apply(s, Fire(id)).inFlight == s.pending
  {
    EveryRunKeepsInv(provider, steps);
  }

  /** Steps left until the controller rests, when no request comes. */
  function Rank(s: State): nat {
    if s.inFlight.Some? then (if s.pending.Some? then 3 else 1) else if s.pending.Some? then 2 else 0
  }

  lemma RankFalls(s: State, step: Step)
    requires Inv(s) && Enabled(s, step) && !step.Request?
    ensures Rank(Apply(s, step)) == if step.Bump? then Rank(s) else Rank(s) - 1
    ensures Apply(s, step).accepted == s.accepted
  {}

  /** How many of some steps are timer callbacks or settlements. */
  function Events(more: seq<Step>): nat {
    if more == [] then 0 else Events(more[..|more| - 1]) + if more[|more| - 1].Bump? then 0 else 1
  }

  /** Once requests stop, at most three callbacks remain; something can happen
      until they are through; then the controller rests, nothing is armed or under
      way, and the window fetched last is the last one accepted. */
  lemma {:induction false} DrainsToWanted(provider: bool, steps: seq<Step>, more: seq<Step>)
    requires Run(provider, steps + more).Some?
    requires forall k :: 0 <= k < |more| ==> !more[k].Request?
    ensures Run(provider, steps).Some?
    ensures var s, t := Run(provider, steps).value, Run(provider, steps + more).value;
      && Rank(t) + Events(more) == Rank(s) <= 3 && t.accepted == s.accepted
      && (Rank(t) > 0 <==> t.armed != {} || t.fetches != [])
      && (Rank(t) == 0 ==> t.pending == None && t.timer == None && t.inFlight == None)
      && (Rank(t) == 0 && s.accepted != [] ==>
            t.fetched != [] && t.fetched[|t.fetched| - 1] == s.accepted[|s.accepted| - 1])
    decreases |more|
  {
    EveryRunKeepsInv(provider, steps + more);
    if more == [] {
      assert steps + more == steps;
    } else {
      var n := |more| - 1;
      assert (steps + more)[..|steps + more| - 1] == steps + more[..n];
      DrainsToWanted(provider, steps, more[..n]);
      EveryRunKeepsInv(provider, steps + more[..n]);
      RankFalls(Run(provider, steps + more[..n]).value, more[n]);
    }
    var t := Run(provider, steps + more).value;
    if t.timer.Some? { assert t.timer.value in t.armed; }
  }

  // ------------------------------------------------------------ debouncing

  /** Timers are numbered in the order they are armed. */
  lemma {:induction false} TimersAreNew(provider: bool, steps: seq<Step>, m: nat)
    requires m <= |steps| && Run(provider, steps).Some?
    ensures Run(provider, steps[..m]).Some?
    ensures var s, t := Run(provider, steps[..m]).value, Run(provider, steps).value;
            s.nextTimer <= t.nextTimer && forall id :: id in s.armed ==> id < t.nextTimer
    decreases |steps|
  {
    var n := |steps|;
    if m == n {
      assert steps[..m] == steps;
      EveryRunKeepsInv(provider, steps);
    } else {
      assert steps[..n - 1][..m] == steps[..m];
      TimersAreNew(provider, steps[..n - 1], m);
    }
  }

  /** A new window asked of an idle controller starts the wait over: one timer is
      armed, and it was never armed before, so none of the earlier ones can fire. */
  lemma RequestStartsOver(provider: bool, steps: seq<Step>, w: Window)
    requires Run(provider, steps).Some?
    requires var s := Run(provider, steps).value; s.inFlight.None? && !SameWindow(s.pending, w)
    ensures var t := Apply(Run(provider, steps).value, Request(w));
      && t.pending == Some(w) && t.timer.Some? && t.armed == {t.timer.value}
      && forall m :: 0 <= m <= |steps| && Run(provider, steps[..m]).Some? ==>
           t.timer.value !in Run(provider, steps[..m]).value.armed
  {
    EveryRunKeepsInv(provider, steps);
    var t := Apply(Run(provider, steps).value, Request(w));
    forall m | 0 <= m <= |steps| && Run(provider, steps[..m]).Some?
      ensures t.timer.value !in Run(provider, steps[..m]).value.armed
    {
      TimersAreNew(provider, steps, m);
    }
  }

  // ------------------------------------------------------------ deliveries

  /** The session was reset after the last fetch was issued. */
  predicate ResetSince(steps: seq<Step>) {
    if steps == [] || steps[|steps| - 1].Fire? then false
    else steps[|steps| - 1].Bump? || ResetSince(steps[..|steps| - 1])
  }

  /** The generation read when a fetch was issued tells whether there was a reset. */
  ghost predicate TellsReset(s: State, reset: bool) {
    s.provider && s.fetches != [] ==>
      && s.fetches[0].generation.Some? && s.fetches[0].generation.value <= s.generation
      && (s.fetches[0].generation.value == s.generation <==> !reset)
  }

  lemma StepTellsReset(s: State, step: Step, reset: bool)
    requires Inv(s) && Enabled(s, step) && TellsReset(s, reset)
    ensures TellsReset(Apply(s, step), !step.Fire? && (step.Bump? || reset))
  {}

  lemma {:induction false} RunTellsReset(provider: bool, steps: seq<Step>)
    requires Run(provider, steps).Some?
    ensures TellsReset(Run(provider, steps).value, ResetSince(steps))
    ensures Run(provider, steps).value.provider == provider
  {
    if steps != [] {
      var before := steps[..|steps| - 1];
      EveryRunKeepsInv(provider, before);
      RunTellsReset(provider, before);
      StepTellsReset(Run(provider, before).value, steps[|steps| - 1], ResetSince(before));
    }
  }

  /** What reaches the view, over all runs: a fetch that succeeds is delivered, as
      the window fetched last, unless the session was reset after it was issued and
      there is a provider to tell; a fetch that fails, and every other step,
      delivers nothing. */
  lemma DeliversExactly(provider: bool, steps: seq<Step>, step: Step)
    requires Run(provider, steps).Some? && Enabled(Run(provider, steps).value, step)
    ensures var s := Run(provider, steps).value;
            var t := Apply(s, step);
            if step.Settle? && step.ok && !(provider && ResetSince(steps))
            then && s.fetched != [] && |t.delivered| == |s.delivered| + 1
                 && t.delivered[..|s.delivered|] == s.delivered
                 && t.delivered[|s.delivered|].window == s.fetched[|s.fetched| - 1]
            else t.delivered == s.delivered
  {
    EveryRunKeepsInv(provider, steps);
    RunTellsReset(provider, steps);
  }

  // ------------------------------------------------------------ two surprises

  /** A delivered response is still the wanted window exactly when no other
      request was accepted while it was under way -- or only the same one, which
      counts again if a bound is not a number. The generation is all that is
      checked. */
  lemma DeliveredIsWantedExactly(provider: bool, steps: seq<Step>)
    requires Run(provider, steps).Some? && |Run(provider, steps).value.fetches| == 1
    requires var s := Run(provider, steps).value; s.provider ==> s.fetches[0].generation == Generation(s)
    ensures var s := Run(provider, steps).value;
            var t := Apply(s, Settle(0, true));
      && |t.delivered| == |s.delivered| + 1
      && var w := t.delivered[|s.delivered|].window;
         Some(w) == Wanted(s) <==> s.pending == None || (s.pending == Some(w) && w.HasNaN())
  {
    EveryRunKeepsInv(provider, steps);
  }

  /** After a request the wanted window is the requested one, unless that window is
      in flight while another one is pending: then the request is ignored, and the
      other one is fetched last. */
  lemma RequestHonouredExactly(provider: bool, steps: seq<Step>, w: Window)
    requires Run(provider, steps).Some?
    ensures var s := Run(provider, steps).value;
            Wanted(Apply(s, Request(w))) == Some(w) <==> !(SameWindow(s.inFlight, w) && s.pending.Some?)
  {
    EveryRunKeepsInv(provider, steps);
  }

  /** Asking again for the same window changes nothing, if and only if all its
      bounds are numbers: one with a NaN counts as a new window every time. */
  lemma RepeatIgnoredExactly(s: State, w: Window)
    ensures var once := Apply(s, Request(w));
            Apply(once, Request(w)) == once <==> !w.HasNaN()
  {
    var once := Apply(s, Request(w));
    if w.HasNaN() {
      assert Apply(once, Request(w)).accepted == once.accepted + [w];
    }
  }

  /** Both can happen. */
  lemma SurprisesHappen(a: Window, b: Window)
    requires a != b
    ensures var steps := [Request(a), Fire(0), Request(b)];
            var r := Run(false, steps);
      && r.Some? && r.value.inFlight == Some(a) && r.value.pending == Some(b)
      && |r.value.fetches| == 1
  {
    var s0, s1 := Initial(false), Apply(Initial(false), Request(a));
    assert [Request(a)][..0] == [] && Run(false, []) == Some(s0);
    assert Run(false, [Request(a)]) == Some(s1);
    assert [Request(a), Fire(0)][..1] == [Request(a)] && Enabled(s1, Fire(0));
    var s2 := Apply(s1, Fire(0));
    assert Run(false, [Request(a), Fire(0)]) == Some(s2);
    assert [Request(a), Fire(0), Request(b)][..2] == [Request(a), Fire(0)];
  }
}
