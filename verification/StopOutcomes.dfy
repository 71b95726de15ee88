/** What becomes of every submission, read off the steps of a run: who is turned
    away, who is taken and who is lost, and that nobody is forgotten. */
module StopOutcomes {
  import opened StopProtocol
  import opened Wrappers

  // ------------------------------------------------------------ the active flag

  /** A start has completed since the last stop or start began. */
  function SwitchedOn(steps: seq<Step>): bool {
    if steps == [] then false
    else match steps[|steps| - 1]
      case Activate => true
      case Deactivate(_) => false
      case _ => SwitchedOn(steps[..|steps| - 1])
  }

  /** The flag is up exactly from the end of a start to the next stop or start. */
  lemma {:induction false} ActiveExactly(steps: seq<Step>)
    requires Run(steps).Some?
    ensures Run(steps).value.active <==> SwitchedOn(steps)
  {
    if steps != [] {
      ActiveExactly(steps[..|steps| - 1]);
      FlagMoves(Run(steps[..|steps| - 1]).value, steps[|steps| - 1]);
    }
  }

  lemma FlagMoves(s: State, step: Step)
    requires Enabled(s, step)
    ensures Apply(s, step).active == if step.Activate? then true else if step.Deactivate? then false else s.active
  {}

  // ------------------------------------------------------------ admission

  /** The state in which a submitter tested the flag. */
  function AdmittedAt(steps: seq<Step>, id: nat): Option<State> {
    if steps == [] then None
    else if steps[|steps| - 1] == Admit(id) then Run(steps[..|steps| - 1])
    else AdmittedAt(steps[..|steps| - 1], id)
  }

  /** What a submitter's state says about its admission. */
  ghost predicate Told(x: Submitter, at: Option<State>, generation: nat) {
    match at
    case None => x.phase.Locked? && x.outcome == Pending
    case Some(found) =>
      && !x.phase.Locked?
      && (x.outcome == Refused <==> !found.active || x.samples == 0)
      && (x.outcome.Taken? ==> x.outcome.generation == found.generation)
      && (x.outcome == Lost ==> !x.packet)
      && (Entering(x) ==> found.generation == generation)
  }

  ghost predicate AllTold(steps: seq<Step>, s: State) {
    && (forall id :: id in s.submitters ==> Told(s.submitters[id], AdmittedAt(steps, id), s.generation))
    && (forall id :: id !in s.submitters ==> AdmittedAt(steps, id) == None)
  }

  /** The submitter a step moves, if any. */
  function Mover(step: Step): Option<nat> {
    match step
    case Lock(id, _, _) => Some(id)
    case Admit(id) => Some(id)
    case Tag(id) => Some(id)
    case Enqueue(id) => Some(id)
    case Place(id) => Some(id)
    case Unlock(id) => Some(id)
    case _ => None
  }

  lemma OthersStay(s: State, step: Step, id: nat)
    requires Enabled(s, step) && Mover(step) != Some(id)
    ensures id in Apply(s, step).submitters <==> id in s.submitters
    ensures id in s.submitters ==> Apply(s, step).submitters[id] == s.submitters[id]
  {
    if Mover(step).None? {
      NobodyMoves(s, step);
    } else {
      OneMoves(s, step);
    }
  }

  lemma NobodyMoves(s: State, step: Step)
    requires Enabled(s, step) && Mover(step).None?
    ensures Apply(s, step).submitters == s.submitters
  {}

  lemma OneMoves(s: State, step: Step)
    requires Enabled(s, step) && Mover(step).Some?
    ensures Mover(step).value in Apply(s, step).submitters
    ensures var id := Mover(step).value;
            Apply(s, step).submitters == s.submitters[id := Apply(s, step).submitters[id]]
  {}

  lemma GenerationStays(s: State, step: Step, id: nat)
    requires Inv(s) && Enabled(s, step) && id in s.submitters && Entering(s.submitters[id])
    ensures Apply(s, step).generation == s.generation
  {
    assert Entry1(s.submitters[id], s.generation, s.fileOpen, s.control);
  }

  lemma MoverTold(s: State, step: Step, id: nat, at: Option<State>)
    requires Inv(s) && Enabled(s, step) && Mover(step) == Some(id)
    requires if id in s.submitters then Told(s.submitters[id], at, s.generation) else at == None
    ensures id in Apply(s, step).submitters && Apply(s, step).generation == s.generation
    ensures Told(Apply(s, step).submitters[id], if step.Admit? then Some(s) else at, s.generation)
  {
    if step.Lock? || step.Admit? {
      AdmissionTold(s, step, id, at);
    } else {
      LeaverTold(s, step, id, at);
    }
  }

  lemma AdmissionTold(s: State, step: Step, id: nat, at: Option<State>)
    requires Enabled(s, step) && (step.Lock? || step.Admit?) && step.id == id
    requires if id in s.submitters then Told(s.submitters[id], at, s.generation) else at == None
    ensures id in Apply(s, step).submitters && Apply(s, step).generation == s.generation
    ensures Told(Apply(s, step).submitters[id], if step.Admit? then Some(s) else at, s.generation)
  {}

  lemma LeaverTold(s: State, step: Step, id: nat, at: Option<State>)
    requires Inv(s) && Enabled(s, step) && (step.Tag? || step.Enqueue? || step.Place? || step.Unlock?)
    requires step.id == id && Told(s.submitters[id], at, s.generation)
    ensures id in Apply(s, step).submitters && Apply(s, step).generation == s.generation
    ensures Told(Apply(s, step).submitters[id], at, s.generation)
  {
    assert Entry1(s.submitters[id], s.generation, s.fileOpen, s.control);
    assert Outcome1(id, s.submitters[id], s.accepted, s.placed);
  }

  lemma {:induction false} EveryoneIsTold(steps: seq<Step>)
    requires Run(steps).Some?
    ensures AllTold(steps, Run(steps).value)
  {
    if steps != [] {
      var before, step := steps[..|steps| - 1], steps[|steps| - 1];
      var s := Run(before).value;
      EveryoneIsTold(before);
      EveryRunKeepsInv(before);
      forall id
        ensures id in Apply(s, step).submitters ==>
                  Told(Apply(s, step).submitters[id], AdmittedAt(steps, id), Apply(s, step).generation)
        ensures id !in Apply(s, step).submitters ==> AdmittedAt(steps, id) == None
      {
        OneTold(before, s, step, id);
      }
    }
  }

  lemma OneTold(before: seq<Step>, s: State, step: Step, id: nat)
    requires Run(before) == Some(s) && Inv(s) && Enabled(s, step)
    requires if id in s.submitters then Told(s.submitters[id], AdmittedAt(before, id), s.generation)
             else AdmittedAt(before, id) == None
    ensures var t, at := Apply(s, step), if step == Admit(id) then Some(s) else AdmittedAt(before, id);
            if id in t.submitters then Told(t.submitters[id], at, t.generation) else at == None
  {
    if Mover(step) == Some(id) {
      MoverTold(s, step, id, AdmittedAt(before, id));
    } else {
      OthersStay(s, step, id);
      if id in s.submitters && Entering(s.submitters[id]) { GenerationStays(s, step, id); }
    }
  }

  /** A submission is turned away if and only if it is empty or finds the flag down;
      one that is taken goes to the generation it found. */
  lemma RefusedExactly(steps: seq<Step>, id: nat)
    requires Run(steps).Some? && id in Run(steps).value.submitters
    ensures var x, at := Run(steps).value.submitters[id], AdmittedAt(steps, id);
      && (x.outcome == Refused <==> at.Some? && (!at.value.active || x.samples == 0))
      && (x.outcome.Taken? ==> at.Some? && x.outcome.generation == at.value.generation)
  {
    EveryoneIsTold(steps);
  }

  /** The step at which a submission was turned away. */
  lemma {:induction false} AdmissionStep(steps: seq<Step>, id: nat) returns (n: nat)
    requires Run(steps).Some? && AdmittedAt(steps, id).Some?
    ensures n < |steps| && steps[n] == Admit(id) && Run(steps[..n]) == AdmittedAt(steps, id)
    decreases |steps|
  {
    var m := |steps| - 1;
    if steps[m] == Admit(id) {
      n := m;
    } else {
      n := AdmissionStep(steps[..m], id);
      assert steps[..m][..n] == steps[..n];
    }
  }

  // ------------------------------------------------------------ nobody is forgotten

  /** The bursts that found the queue full, in order. */
  function LostIn(steps: seq<Step>): seq<Burst>
    requires Run(steps).Some?
  {
    if steps == [] then []
    else
      var before, step := steps[..|steps| - 1], steps[|steps| - 1];
      var s := Run(before).value;
      if step.Enqueue? && |s.queue| >= QUEUE_CAPACITY
      then LostIn(before) + [Burst(s.submitters[step.id].phase.generation, step.id, s.submitters[step.id].samples)]
      else LostIn(before)
  }

  /** A burst is lost if and only if it finds 512 items in the queue, which is all that
      there ever are. */
  lemma LostExactly(steps: seq<Step>, id: nat)
    requires Run(steps).Some? && Enabled(Run(steps).value, Enqueue(id))
    ensures var s := Run(steps).value;
            Apply(s, Enqueue(id)).submitters[id].outcome == Lost <==> |s.queue| == 512
    ensures |Run(steps).value.queue| <= 512
  {
    EveryRunKeepsInv(steps);
  }

  /** A log holds exactly the submissions of one outcome, each once. */
  ghost predicate LogsOnce(log: seq<Burst>) {
    forall i, j :: 0 <= i < j < |log| ==> log[i].id != log[j].id
  }

  /** Where a submission stands in the logs. */
  ghost predicate Logged(m: map<nat, Submitter>, accepted: seq<Burst>, placed: seq<Burst>, lost: seq<Burst>, b: Burst) {
    var known := b.id in m && m[b.id].samples == b.samples;
    && (b in accepted <==> known && !m[b.id].packet && m[b.id].outcome == Taken(b.generation))
    && (b in placed <==> known && m[b.id].packet && m[b.id].outcome == Taken(b.generation))
    && (b in lost ==> known && m[b.id].outcome == Lost)
  }

  ghost predicate LostLogged(m: map<nat, Submitter>, lost: seq<Burst>) {
    forall id :: id in m && m[id].outcome == Lost ==> exists b :: b in lost && b.id == id && b.samples == m[id].samples
  }

  ghost predicate Books(s: State, lost: seq<Burst>) {
    && LogsOnce(s.accepted) && LogsOnce(s.placed) && LogsOnce(lost)
    && (forall b :: Logged(s.submitters, s.accepted, s.placed, lost, b))
    && LostLogged(s.submitters, lost) && s.dropped == Total(lost)
  }

  lemma OnceMore(log: seq<Burst>, b: Burst)
    requires LogsOnce(log) && forall x :: x in log ==> x.id != b.id
    ensures LogsOnce(log + [b])
  {
    forall i | 0 <= i < |log|
      ensures log[i].id != b.id
    {
      assert log[i] in log;
    }
  }

  lemma UndecidedIsUnlogged(s: State, lost: seq<Burst>, id: nat)
    requires Books(s, lost) && id in s.submitters && s.submitters[id].outcome == Pending
    ensures forall b :: b in s.accepted || b in s.placed || b in lost ==> b.id != id
  {
    forall b | b in s.accepted || b in s.placed || b in lost
      ensures b.id != id
    {
      assert Logged(s.submitters, s.accepted, s.placed, lost, b);
    }
  }

  /** A step that logs nothing. */
  lemma QuietMover(s: State, step: Step, id: nat)
    requires Inv(s) && Enabled(s, step) && !step.Enqueue? && !step.Place? && Mover(step) == Some(id)
    ensures var t := Apply(s, step);
      && t.accepted == s.accepted && t.placed == s.placed && t.dropped == s.dropped && id in t.submitters
      && (id !in s.submitters ==> t.submitters[id].outcome == Pending)
      && (id in s.submitters ==>
            && t.submitters[id].samples == s.submitters[id].samples
            && t.submitters[id].packet == s.submitters[id].packet
            && (t.submitters[id].outcome == s.submitters[id].outcome
                || (t.submitters[id].outcome == Refused && s.submitters[id].outcome == Pending)))
  {
    if id in s.submitters { assert Outcome1(id, s.submitters[id], s.accepted, s.placed); }
  }

  lemma QuietLogs(s: State, step: Step)
    requires Enabled(s, step) && !step.Enqueue? && !step.Place?
    ensures var t := Apply(s, step);
            t.accepted == s.accepted && t.placed == s.placed && t.dropped == s.dropped
  {}

  lemma QuietStep(s: State, step: Step, lost: seq<Burst>)
    requires Books(s, lost) && Inv(s) && Enabled(s, step) && !step.Enqueue? && !step.Place?
    ensures Books(Apply(s, step), lost)
  {
    var t := Apply(s, step);
    QuietLogs(s, step);
    forall id
      ensures id in s.submitters && s.submitters[id].outcome != Pending ==>
                id in t.submitters && t.submitters[id] == s.submitters[id].(phase := t.submitters[id].phase)
      ensures id in t.submitters && t.submitters[id].outcome != Refused && t.submitters[id].outcome != Pending ==>
                id in s.submitters && t.submitters[id].outcome == s.submitters[id].outcome
                && t.submitters[id].samples == s.submitters[id].samples
                && t.submitters[id].packet == s.submitters[id].packet
    {
      if Mover(step) == Some(id) { QuietMover(s, step, id); } else { OthersStay(s, step, id); }
    }
    QuietBooks(s, t, lost);
  }

  lemma QuietBooks(s: State, t: State, lost: seq<Burst>)
    requires Books(s, lost) && t.accepted == s.accepted && t.placed == s.placed && t.dropped == s.dropped
    requires forall id :: id in s.submitters && s.submitters[id].outcome != Pending ==>
               id in t.submitters && t.submitters[id] == s.submitters[id].(phase := t.submitters[id].phase)
    requires forall id ::
               id in t.submitters && t.submitters[id].outcome != Refused && t.submitters[id].outcome != Pending ==>
                 && id in s.submitters && t.submitters[id].outcome == s.submitters[id].outcome
                 && t.submitters[id].samples == s.submitters[id].samples
                 && t.submitters[id].packet == s.submitters[id].packet
    ensures Books(t, lost)
  {
    forall b
      ensures Logged(t.submitters, t.accepted, t.placed, lost, b)
    {
      assert Logged(s.submitters, s.accepted, s.placed, lost, b);
    }
  }

  /** The burst that a submitter hands in. */
  function BurstOf(s: State, id: nat): Burst
    requires id in s.submitters
  {
    var x := s.submitters[id];
    Burst(if x.phase.Tagged? then x.phase.generation else s.generation, id, x.samples)
  }

  /** A step by which a submission leaves, taken, placed or lost. */
  lemma LeavingStep(s: State, t: State, id: nat, lost: seq<Burst>, lost': seq<Burst>, b: Burst)
    requires Books(s, lost) && id in s.submitters && s.submitters[id].outcome == Pending
    requires b.id == id && b.samples == s.submitters[id].samples && id in t.submitters
    requires t.submitters == s.submitters[id := t.submitters[id]]
    requires t.submitters[id].samples == b.samples && t.submitters[id].packet == s.submitters[id].packet
    requires
      var x := t.submitters[id];
      || (x.outcome == Taken(b.generation) && !x.packet
          && (t.accepted, t.placed, lost') == (s.accepted + [b], s.placed, lost) && t.dropped == s.dropped)
      || (x.outcome == Taken(b.generation) && x.packet
          && (t.accepted, t.placed, lost') == (s.accepted, s.placed + [b], lost) && t.dropped == s.dropped)
      || (x.outcome == Lost && (t.accepted, t.placed, lost') == (s.accepted, s.placed, lost + [b])
          && t.dropped == s.dropped + b.samples)
    ensures Books(t, lost')
  {
    UndecidedIsUnlogged(s, lost, id);
    LogsStayOnce(s, t, lost, lost', b);
    forall c
      ensures Logged(t.submitters, t.accepted, t.placed, lost', c)
    {
      assert Logged(s.submitters, s.accepted, s.placed, lost, c);
    }
    StillLogged(s, t, id, lost, lost', b);
    OneMoreOf(lost, b, 0);
  }

  lemma LogsStayOnce(s: State, t: State, lost: seq<Burst>, lost': seq<Burst>, b: Burst)
    requires LogsOnce(s.accepted) && LogsOnce(s.placed) && LogsOnce(lost)
    requires forall c :: c in s.accepted || c in s.placed || c in lost ==> c.id != b.id
    requires t.accepted == s.accepted || t.accepted == s.accepted + [b]
    requires t.placed == s.placed || t.placed == s.placed + [b]
    requires lost' == lost || lost' == lost + [b]
    ensures LogsOnce(t.accepted) && LogsOnce(t.placed) && LogsOnce(lost')
  {
    OnceMore(s.accepted, b);
    OnceMore(s.placed, b);
    OnceMore(lost, b);
  }

  lemma StillLogged(s: State, t: State, id: nat, lost: seq<Burst>, lost': seq<Burst>, b: Burst)
    requires LostLogged(s.submitters, lost) && id in s.submitters && id in t.submitters
    requires t.submitters == s.submitters[id := t.submitters[id]]
    requires lost <= lost' && b.id == id && b.samples == t.submitters[id].samples
    requires t.submitters[id].outcome == Lost ==> b in lost'
    ensures LostLogged(t.submitters, lost')
  {
    forall i | i in t.submitters && t.submitters[i].outcome == Lost
      ensures exists c :: c in lost' && c.id == i && c.samples == t.submitters[i].samples
    {
      if i != id {
        var c :| c in lost && c.id == i && c.samples == s.submitters[i].samples;
        assert c in lost';
      }
    }
  }

  lemma EnqueueStep(s: State, id: nat, lost: seq<Burst>)
    requires Books(s, lost) && Inv(s) && Enabled(s, Enqueue(id))
    ensures Books(Apply(s, Enqueue(id)), if |s.queue| >= QUEUE_CAPACITY then lost + [BurstOf(s, id)] else lost)
  {
    assert Entry1(s.submitters[id], s.generation, s.fileOpen, s.control);
    assert Outcome1(id, s.submitters[id], s.accepted, s.placed);
    var lost' := if |s.queue| >= QUEUE_CAPACITY then lost + [BurstOf(s, id)] else lost;
    LeavingStep(s, Apply(s, Enqueue(id)), id, lost, lost', BurstOf(s, id));
  }

  lemma PlacingStep(s: State, id: nat, lost: seq<Burst>)
    requires Books(s, lost) && Inv(s) && Enabled(s, Place(id))
    ensures Books(Apply(s, Place(id)), lost)
  {
    assert Entry1(s.submitters[id], s.generation, s.fileOpen, s.control);
    assert Outcome1(id, s.submitters[id], s.accepted, s.placed);
    LeavingStep(s, Apply(s, Place(id)), id, lost, lost, BurstOf(s, id));
  }

  lemma {:induction false} BooksAreKept(steps: seq<Step>)
    requires Run(steps).Some?
    ensures Books(Run(steps).value, LostIn(steps))
  {
    if steps != [] {
      var before, step := steps[..|steps| - 1], steps[|steps| - 1];
      var s := Run(before).value;
      BooksAreKept(before);
      EveryRunKeepsInv(before);
      if step.Enqueue? {
        EnqueueStep(s, step.id, LostIn(before));
      } else if step.Place? {
        PlacingStep(s, step.id, LostIn(before));
      } else {
        QuietStep(s, step, LostIn(before));
      }
    }
  }

  /** The logs hold exactly the submissions that were taken, each once; and the
      dropped samples are exactly those of the submissions lost to a full queue. */
  lemma LogsAreExact(steps: seq<Step>, b: Burst)
    requires Run(steps).Some?
    ensures var s, lost := Run(steps).value, LostIn(steps);
      && LogsOnce(s.accepted) && LogsOnce(s.placed) && LogsOnce(lost)
      && Logged(s.submitters, s.accepted, s.placed, lost, b) && s.dropped == Total(lost)
  {
    BooksAreKept(steps);
  }

  /** Nobody is forgotten: a submission that is not empty, found the recorder active
      and has left was taken, and is once in the log of its generation; or it was lost
      to a full queue, and its samples are once among those dropped. */
  lemma EveryoneIsAccountedFor(steps: seq<Step>, id: nat)
    requires Run(steps).Some? && id in Run(steps).value.submitters
    requires var x, at := Run(steps).value.submitters[id], AdmittedAt(steps, id);
      && (x.phase.Leaving? || x.phase.Done?) && x.samples > 0
      && at.Some? && at.value.active
    ensures var s := Run(steps).value;
            var x, lost := s.submitters[id], LostIn(steps);
            var b := Burst(AdmittedAt(steps, id).value.generation, id, x.samples);
      && s.dropped == Total(lost) && LogsOnce(lost) && LogsOnce(s.accepted) && LogsOnce(s.placed)
      && (|| (x.outcome == Taken(b.generation) && b in (if x.packet then s.placed else s.accepted))
          || (x.outcome == Lost && !x.packet && exists c :: c in lost && c.id == id && c.samples == x.samples))
  {
    EveryoneIsTold(steps);
    EveryRunKeepsInv(steps);
    BooksAreKept(steps);
    var s := Run(steps).value;
    var x := s.submitters[id];
    assert Outcome1(id, x, s.accepted, s.placed);
    assert Told(x, AdmittedAt(steps, id), s.generation);
    assert Logged(s.submitters, s.accepted, s.placed, LostIn(steps),
                  Burst(AdmittedAt(steps, id).value.generation, id, x.samples));
  }

  /** Processed before the seal, or counted as dropped: once the file of the generation
      it found is sealed, such a submission is in it, or its samples are among those
      dropped. */
  lemma ProcessedOrCounted(steps: seq<Step>, id: nat, i: nat)
    requires Run(steps).Some? && id in Run(steps).value.submitters && i < |Run(steps).value.seals|
    requires var s, at := Run(steps).value, AdmittedAt(steps, id);
             var x := s.submitters[id];
      && (x.phase.Leaving? || x.phase.Done?) && x.samples > 0
      && at.Some? && at.value.active && s.seals[i].generation == at.value.generation
    ensures var s := Run(steps).value;
            var x, lost := s.submitters[id], LostIn(steps);
      || EntryOf(x, id, s.seals[i].generation) in s.seals[i].contents
      || (!x.packet && s.dropped == Total(lost) && exists c :: c in lost && c.id == id && c.samples == x.samples)
  {
    EveryoneIsAccountedFor(steps, id);
    if Run(steps).value.submitters[id].outcome.Taken? { TakenIsWritten(steps, id, i); }
  }
}
