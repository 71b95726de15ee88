/** The stop protocol of the recorder as interleaved steps: any number of
    submitters, the writer loop, and start and stop calls one after another.
    Every access to shared state is a step of its own. */
module StopProtocol {
  import opened Wrappers

  const QUEUE_CAPACITY := 512

  /** A submitted burst of samples, or packet of events: who submitted it, and how
      many it has. */
  datatype Burst = Burst(generation: nat, id: nat, samples: nat)

  datatype Item = Samples(burst: Burst) | Flush

  /** What was done to a file: the loop wrote a burst, or a submitter placed its
      packet. */
  datatype Entry = Written(burst: Burst) | Placed(burst: Burst)

  /** Where a submitter stands between taking the read lock and leaving. */
  datatype Phase = Locked | Admitted | Tagged(generation: nat) | Leaving | Done

  /** What became of a submission: turned away at the active flag, taken into the
      queue or placed, or lost to a full queue. */
  datatype Outcome = Pending | Refused | Taken(generation: nat) | Lost

  datatype Submitter = Submitter(phase: Phase, packet: bool, samples: nat, outcome: Outcome)

  datatype Loop = Idle | Got(item: Item) | Handled(item: Item)

  /** Where the one start or stop call stands; `starting` tells which it is. */
  datatype Control =
    | Free
    | Inactive(starting: bool)
    | Barrier(starting: bool)
    | Passed(starting: bool)
    | Looked(starting: bool, hasFile: bool)
    | Waiting(starting: bool)
    | Flushed(starting: bool)
    | Sealed
    | Opened

  /** A sealed file: its generation and what was done to it. */
  datatype Seal = Seal(generation: nat, contents: seq<Entry>)

  datatype State = State(
    active: bool, generation: nat, fileOpen: bool, file: seq<Entry>,
    submitters: map<nat, Submitter>, queue: seq<Item>, loop: Loop, flushed: bool, control: Control,
    accepted: seq<Burst>, placed: seq<Burst>, offered: nat, dropped: nat, discarded: nat, seals: seq<Seal>)

  const START := State(false, 0, false, [], map[], [], Idle, false, Free, [], [], 0, 0, 0, [])

  datatype Step =
    | Lock(id: nat, packet: bool, samples: nat)
    | Admit(id: nat)
    | Tag(id: nat)
    | Enqueue(id: nat)
    | Place(id: nat)
    | Unlock(id: nat)
    | Dequeue
    | Handle
    | Finish
    | Deactivate(call: bool)
    | TakeBarrier
    | LeaveBarrier
    | Look
    | AskFlush
    | AwaitFlush
    | SealFile
    | OpenFile
    | Activate

  predicate Reading(m: Submitter) { m.phase != Done }

  /** Past the test of the active flag, still able to enqueue. */
  predicate Entering(m: Submitter) { m.phase.Admitted? || m.phase.Tagged? }

  predicate Is(s: State, id: nat, p: Phase) {
    id in s.submitters && s.submitters[id].phase == p
  }

  predicate Enabled(s: State, step: Step) {
    match step
    case Lock(id, _, _) => id !in s.submitters && !s.control.Barrier?
    case Admit(id) => Is(s, id, Locked)
    case Tag(id) => Is(s, id, Admitted) && !s.submitters[id].packet
    case Enqueue(id) => id in s.submitters && s.submitters[id].phase.Tagged?
    case Place(id) => Is(s, id, Admitted) && s.submitters[id].packet
    case Unlock(id) => Is(s, id, Leaving)
    case Dequeue => s.loop.Idle? && s.queue != []
    case Handle => s.loop.Got?
    case Finish => s.loop.Handled?
    case Deactivate(_) => s.control.Free?
    case TakeBarrier => s.control.Inactive? && forall id :: id in s.submitters ==> !Reading(s.submitters[id])
    case LeaveBarrier => s.control.Barrier?
    case Look => s.control.Passed?
    case AskFlush => s.control.Looked? && s.control.hasFile && |s.queue| < QUEUE_CAPACITY
    case AwaitFlush => s.control.Waiting? && s.flushed
    case SealFile => s.control.Flushed? || (s.control.Looked? && !s.control.hasFile)
    case OpenFile => s.control.Sealed?
    case Activate => s.control.Opened?
  }

  function SetPhase(s: State, id: nat, p: Phase): State
    requires id in s.submitters
  {
    s.(submitters := s.submitters[id := s.submitters[id].(phase := p)])
  }

  function Leave(s: State, id: nat, outcome: Outcome): State
    requires id in s.submitters
  {
    s.(submitters := s.submitters[id := s.submitters[id].(phase := Leaving, outcome := outcome)])
  }

  function Apply(s: State, step: Step): State
    requires Enabled(s, step)
  {
    match step
    case Lock(id, packet, n) => s.(submitters := s.submitters[id := Submitter(Locked, packet, n, Pending)])
    case Admit(id) =>
      if !s.active || s.submitters[id].samples == 0 then Leave(s, id, Refused) else SetPhase(s, id, Admitted)
    case Tag(id) => SetPhase(s, id, Tagged(s.generation))
    case Enqueue(id) =>
      var b := Burst(s.submitters[id].phase.generation, id, s.submitters[id].samples);
      var t := s.(offered := s.offered + b.samples);
      if |s.queue| < QUEUE_CAPACITY then
        Leave(t, id, Taken(b.generation)).(queue := s.queue + [Samples(b)], accepted := s.accepted + [b])
      else Leave(t, id, Lost).(dropped := s.dropped + b.samples)
    case Place(id) =>
      var b := Burst(s.generation, id, s.submitters[id].samples);
      if s.fileOpen then
        Leave(s, id, Taken(b.generation)).(file := s.file + [Placed(b)], placed := s.placed + [b])
      else Leave(s, id, Refused)
    case Unlock(id) => SetPhase(s, id, Done)
    case Dequeue => s.(loop := Got(s.queue[0]), queue := s.queue[1..])
    case Handle => HandleItem(s, s.loop.item)
    case Finish => s.(loop := Idle, flushed := s.flushed || s.loop.item.Flush?)
    case Deactivate(starting) => s.(active := false, control := Inactive(starting))
    case TakeBarrier => s.(control := Barrier(s.control.starting))
    case LeaveBarrier => s.(control := Passed(s.control.starting))
    case Look => s.(control := Looked(s.control.starting, s.fileOpen))
    case AskFlush =>
      s.(queue := s.queue + [Flush], flushed := false, control := Waiting(s.control.starting))
    case AwaitFlush => s.(control := Flushed(s.control.starting))
    case SealFile =>
      var t := s.(control := if s.control.starting then Sealed else Free);
      if s.fileOpen then t.(fileOpen := false, seals := s.seals + [Seal(s.generation, s.file)]) else t
    case OpenFile => s.(generation := s.generation + 1, fileOpen := true, file := [], control := Opened)
    case Activate => s.(active := true, control := Free)
  }

  /** The loop's work on one item: bursts of another generation are discarded. */
  function HandleItem(s: State, item: Item): State {
    var t := s.(loop := Handled(item));
    match item
    case Flush => t
    case Samples(b) =>
      if s.fileOpen && b.generation == s.generation then t.(file := s.file + [Written(b)])
      else t.(discarded := s.discarded + 1)
  }

  /** The state after some steps, if each was possible in its turn. */
  function Run(steps: seq<Step>): Option<State> {
    if steps == [] then Some(START)
    else match Run(steps[..|steps| - 1])
      case None => None
      case Some(s) =>
        if Enabled(s, steps[|steps| - 1]) then Some(Apply(s, steps[|steps| - 1])) else None
  }

  // ------------------------------------------------------------ invariant

  /** The bursts of one generation, in order. */
  function Of(bs: seq<Burst>, generation: nat): seq<Burst> {
    if bs == [] then []
    else if bs[|bs| - 1].generation == generation then Of(bs[..|bs| - 1], generation) + [bs[|bs| - 1]]
    else Of(bs[..|bs| - 1], generation)
  }

  function Total(bs: seq<Burst>): nat {
    if bs == [] then 0 else Total(bs[..|bs| - 1]) + bs[|bs| - 1].samples
  }

  /** The bursts the loop wrote to a file, and the packets placed in it. */
  function Batches(f: seq<Entry>): seq<Burst> {
    if f == [] then []
    else match f[|f| - 1]
      case Written(b) => Batches(f[..|f| - 1]) + [b]
      case Placed(_) => Batches(f[..|f| - 1])
  }

  function Packets(f: seq<Entry>): seq<Burst> {
    if f == [] then []
    else match f[|f| - 1]
      case Written(_) => Packets(f[..|f| - 1])
      case Placed(b) => Packets(f[..|f| - 1]) + [b]
  }

  /** The bursts among the items of the queue. */
  function Bursts(q: seq<Item>): seq<Burst> {
    if q == [] then []
    else match q[|q| - 1]
      case Flush => Bursts(q[..|q| - 1])
      case Samples(b) => Bursts(q[..|q| - 1]) + [b]
  }

  /** The burst the loop has taken out and not yet handled. */
  function Held(l: Loop): seq<Burst> {
    if l.Got? && l.item.Samples? then [l.item.burst] else []
  }

  /** From the barrier to the end of the call nobody can enqueue. */
  predicate Quiet(c: Control) { !c.Free? && !c.Inactive? }

  /** A submission is undecided as long as it is locked or entering; what was
      taken is in its log. */
  ghost predicate Outcome1(id: nat, x: Submitter, accepted: seq<Burst>, placed: seq<Burst>) {
    && (x.outcome == Pending <==> x.phase.Locked? || Entering(x))
    && (x.outcome.Taken? ==>
          Burst(x.outcome.generation, id, x.samples) in (if x.packet then placed else accepted))
  }

  ghost predicate Outcomes(m: map<nat, Submitter>, accepted: seq<Burst>, placed: seq<Burst>) {
    forall id :: id in m ==> Outcome1(id, m[id], accepted, placed)
  }

  /** Who enters finds the file open and the barrier not yet passed. */
  ghost predicate Entry1(x: Submitter, generation: nat, fileOpen: bool, c: Control) {
    && (Entering(x) ==> fileOpen && !Quiet(c))
    && (x.phase.Tagged? ==> !x.packet && x.phase.generation == generation)
  }

  ghost predicate Submitters(m: map<nat, Submitter>, generation: nat, fileOpen: bool, c: Control) {
    forall id :: id in m ==> Entry1(m[id], generation, fileOpen, c)
  }

  /** The loop's item and the queue, in the order they will be handled. */
  function Ahead(l: Loop, queue: seq<Item>): seq<Item> {
    (if l.Idle? then [] else [l.item]) + queue
  }

  ghost predicate NoFlush(q: seq<Item>) { forall i :: 0 <= i < |q| ==> q[i].Samples? }

  /** A flush request is the last item there is, until it is answered; otherwise
      there is none. */
  ghost predicate FlushEnds(c: Control, flushed: bool, fileOpen: bool, q: seq<Item>) {
    match c
    case Waiting(_) => if flushed then q == [] else q != [] && q[|q| - 1].Flush? && NoFlush(q[..|q| - 1])
    case Flushed(_) => q == []
    case Sealed => q == []
    case Opened => q == []
    case _ => NoFlush(q) && (!fileOpen ==> q == [])
  }

  ghost predicate Controls(c: Control, active: bool, fileOpen: bool) {
    && (active ==> c.Free? && fileOpen)
    && (c.Looked? ==> c.hasFile == fileOpen)
    && (c.Waiting? || c.Flushed? || c.Opened? ==> fileOpen) && (c.Sealed? ==> !fileOpen)
  }

  /** The file and what is still on its way to it, against what was taken. */
  ghost predicate Files(file: seq<Entry>, way: seq<Burst>, accepted: seq<Burst>, placed: seq<Burst>,
                        generation: nat, fileOpen: bool)
  {
    && Of(accepted, generation) == Batches(file) + way && Of(placed, generation) == Packets(file)
    && (forall b :: b in way ==> b.generation == generation && fileOpen)
    && (forall b :: b in accepted ==> b.generation <= generation)
    && (forall b :: b in placed ==> b.generation <= generation)
  }

  ghost predicate Seals(seals: seq<Seal>, accepted: seq<Burst>, placed: seq<Burst>, generation: nat,
                        fileOpen: bool)
  {
    forall i :: 0 <= i < |seals| ==>
      && seals[i].generation <= generation && (fileOpen ==> seals[i].generation < generation)
      && Batches(seals[i].contents) == Of(accepted, seals[i].generation)
      && Packets(seals[i].contents) == Of(placed, seals[i].generation)
  }

  ghost predicate Inv(s: State) {
    && Outcomes(s.submitters, s.accepted, s.placed)
    && Submitters(s.submitters, s.generation, s.fileOpen, s.control)
    && FlushEnds(s.control, s.flushed, s.fileOpen, Ahead(s.loop, s.queue))
    && Controls(s.control, s.active, s.fileOpen)
    && Files(s.file, Held(s.loop) + Bursts(s.queue), s.accepted, s.placed, s.generation, s.fileOpen)
    && Seals(s.seals, s.accepted, s.placed, s.generation, s.fileOpen)
    && s.offered == Total(s.accepted) + s.dropped && s.discarded == 0 && |s.queue| <= QUEUE_CAPACITY
  }

  // ------------------------------------------------------------ steps keep it

  lemma {:induction false} DequeuedFirst(q: seq<Item>)
    requires q != []
    ensures Bursts(q) == Held(Got(q[0])) + Bursts(q[1..])
  {
    if |q| > 1 {
      var n := |q| - 1;
      DequeuedFirst(q[..n]);
      assert q[1..][..n - 1] == q[..n][1..];
    } else {
      assert q[..0] == [] && q[1..] == [];
    }
  }

  lemma OneMoreOf(bs: seq<Burst>, b: Burst, generation: nat)
    ensures Of(bs + [b], generation)
         == if b.generation == generation then Of(bs, generation) + [b] else Of(bs, generation)
    ensures Total(bs + [b]) == Total(bs) + b.samples
  {
    assert (bs + [b])[..|bs|] == bs;
  }

  lemma OneMoreEntry(f: seq<Entry>, e: Entry)
    ensures Batches(f + [e]) == if e.Written? then Batches(f) + [e.burst] else Batches(f)
    ensures Packets(f + [e]) == if e.Placed? then Packets(f) + [e.burst] else Packets(f)
  {
    assert (f + [e])[..|f|] == f;
  }

  lemma {:induction false} NoneOf(bs: seq<Burst>, generation: nat)
    requires forall b :: b in bs ==> b.generation < generation
    ensures Of(bs, generation) == []
  {
    if bs != [] { NoneOf(bs[..|bs| - 1], generation); }
  }

  predicate SubmitterMoves(step: Step) { step.Lock? || step.Admit? || step.Tag? || step.Unlock? }

  /** One submitter moves, the logs may grow. */
  lemma Moved(s: State, id: nat, x: Submitter, accepted: seq<Burst>, placed: seq<Burst>)
    requires Outcomes(s.submitters, s.accepted, s.placed) && s.accepted <= accepted && s.placed <= placed
    requires Submitters(s.submitters, s.generation, s.fileOpen, s.control)
    requires Outcome1(id, x, accepted, placed) && Entry1(x, s.generation, s.fileOpen, s.control)
    ensures Outcomes(s.submitters[id := x], accepted, placed)
    ensures Submitters(s.submitters[id := x], s.generation, s.fileOpen, s.control)
  {
    forall i | i in s.submitters
      ensures Outcome1(i, s.submitters[i], accepted, placed)
    {
      assert Outcome1(i, s.submitters[i], s.accepted, s.placed);
    }
  }

  lemma OnlySubmitters(s: State, m: map<nat, Submitter>)
    requires Inv(s) && Outcomes(m, s.accepted, s.placed)
    requires Submitters(m, s.generation, s.fileOpen, s.control)
    ensures Inv(s.(submitters := m))
  {}

  lemma SubmitterMoved(s: State, step: Step)
    requires Inv(s) && Enabled(s, step) && SubmitterMoves(step)
    ensures var x := Apply(s, step).submitters[step.id];
      && Outcome1(step.id, x, s.accepted, s.placed) && Entry1(x, s.generation, s.fileOpen, s.control)
      && Apply(s, step) == s.(submitters := s.submitters[step.id := x])
  {
    if !step.Lock? {
      assert Outcome1(step.id, s.submitters[step.id], s.accepted, s.placed);
      assert Entry1(s.submitters[step.id], s.generation, s.fileOpen, s.control);
    }
  }

  lemma SubmitterStep(s: State, step: Step)
    requires Inv(s) && Enabled(s, step) && SubmitterMoves(step)
    ensures Inv(Apply(s, step))
  {
    var x := Apply(s, step).submitters[step.id];
    SubmitterMoved(s, step);
    Moved(s, step.id, x, s.accepted, s.placed);
    OnlySubmitters(s, s.submitters[step.id := x]);
  }

  lemma SealsOfMore(seals: seq<Seal>, accepted: seq<Burst>, placed: seq<Burst>, generation: nat, b: Burst)
    requires Seals(seals, accepted, placed, generation, true) && b.generation == generation
    ensures Seals(seals, accepted + [b], placed, generation, true)
    ensures Seals(seals, accepted, placed + [b], generation, true)
  {
    forall i | 0 <= i < |seals|
      ensures Of(accepted + [b], seals[i].generation) == Of(accepted, seals[i].generation)
      ensures Of(placed + [b], seals[i].generation) == Of(placed, seals[i].generation)
    {
      OneMoreOf(accepted, b, seals[i].generation);
      OneMoreOf(placed, b, seals[i].generation);
    }
  }

  lemma EnqueuedFiles(s: State, b: Burst)
    requires Inv(s) && b.generation == s.generation && s.fileOpen
    ensures var way := Held(s.loop) + Bursts(s.queue + [Samples(b)]);
            Files(s.file, way, s.accepted + [b], s.placed, s.generation, true)
  {
    var way := Held(s.loop) + Bursts(s.queue);
    OneMoreOf(s.accepted, b, s.generation);
    assert (s.queue + [Samples(b)])[..|s.queue|] == s.queue;
    assert Held(s.loop) + (Bursts(s.queue) + [b]) == way + [b];
    assert Batches(s.file) + (way + [b]) == (Batches(s.file) + way) + [b];
  }

  /** The logs and the file grow by one submission, whose submitter leaves. */
  lemma Grown(s: State, id: nat, b: Burst, t: State)
    requires Inv(s) && id in s.submitters && Entering(s.submitters[id])
    requires b == Burst(s.generation, id, s.submitters[id].samples)
    requires (t.accepted, t.placed)
          == if s.submitters[id].packet then (s.accepted, s.placed + [b]) else (s.accepted + [b], s.placed)
    requires t.submitters == Leave(s, id, Taken(s.generation)).submitters
    ensures Outcomes(t.submitters, t.accepted, t.placed)
    ensures Seals(s.seals, t.accepted, t.placed, s.generation, s.fileOpen)
    ensures Submitters(t.submitters, s.generation, s.fileOpen, s.control)
  {
    assert Entry1(s.submitters[id], s.generation, s.fileOpen, s.control);
    SealsOfMore(s.seals, s.accepted, s.placed, s.generation, b);
    Moved(s, id, s.submitters[id].(phase := Leaving, outcome := Taken(s.generation)), t.accepted, t.placed);
  }

  lemma AcceptedStep(s: State, id: nat)
    requires Inv(s) && Enabled(s, Enqueue(id)) && |s.queue| < QUEUE_CAPACITY
    ensures Inv(Apply(s, Enqueue(id)))
  {
    assert Entry1(s.submitters[id], s.generation, s.fileOpen, s.control);
    var b := Burst(s.generation, id, s.submitters[id].samples);
    Grown(s, id, b, Apply(s, Enqueue(id)));
    EnqueuedFiles(s, b);
    OneMoreOf(s.accepted, b, s.generation);
    assert Ahead(s.loop, s.queue + [Samples(b)]) == Ahead(s.loop, s.queue) + [Samples(b)];
  }

  lemma LostStep(s: State, id: nat)
    requires Inv(s) && Enabled(s, Enqueue(id)) && |s.queue| >= QUEUE_CAPACITY
    ensures Inv(Apply(s, Enqueue(id)))
  {
    Moved(s, id, s.submitters[id].(phase := Leaving, outcome := Lost), s.accepted, s.placed);
  }

  lemma PlacedFiles(s: State, b: Burst)
    requires Inv(s) && b.generation == s.generation
    ensures var way := Held(s.loop) + Bursts(s.queue);
            Files(s.file + [Placed(b)], way, s.accepted, s.placed + [b], s.generation, s.fileOpen)
  {
    OneMoreOf(s.placed, b, s.generation);
    OneMoreEntry(s.file, Placed(b));
  }

  lemma PlaceStep(s: State, id: nat)
    requires Inv(s) && Enabled(s, Place(id))
    ensures Inv(Apply(s, Place(id)))
  {
    assert Entry1(s.submitters[id], s.generation, s.fileOpen, s.control);
    var b := Burst(s.generation, id, s.submitters[id].samples);
    Grown(s, id, b, Apply(s, Place(id)));
    PlacedFiles(s, b);
  }

  lemma DequeueStep(s: State)
    requires Inv(s) && Enabled(s, Dequeue)
    ensures Inv(Apply(s, Dequeue))
  {
    var t := Apply(s, Dequeue);
    DequeuedFirst(s.queue);
    assert Ahead(t.loop, t.queue) == Ahead(s.loop, s.queue);
    assert Held(t.loop) + Bursts(t.queue) == Held(s.loop) + Bursts(s.queue);
  }

  lemma WrittenFiles(file: seq<Entry>, b: Burst, way: seq<Burst>, accepted: seq<Burst>, placed: seq<Burst>,
                     generation: nat, fileOpen: bool)
    requires Files(file, [b] + way, accepted, placed, generation, fileOpen)
    ensures Files(file + [Written(b)], way, accepted, placed, generation, fileOpen)
  {
    OneMoreEntry(file, Written(b));
    assert Batches(file) + ([b] + way) == (Batches(file) + [b]) + way;
    forall x | x in way
      ensures x.generation == generation && fileOpen
    {
      assert x in [b] + way;
    }
  }

  lemma HandledFiles(s: State, b: Burst)
    requires Inv(s) && s.loop == Got(Samples(b))
    ensures s.fileOpen && b.generation == s.generation
    ensures Files(s.file + [Written(b)], Bursts(s.queue), s.accepted, s.placed, s.generation, s.fileOpen)
  {
    var q := Bursts(s.queue);
    assert Held(s.loop) == [b] && b in [b] + q;
    WrittenFiles(s.file, b, q, s.accepted, s.placed, s.generation, s.fileOpen);
  }

  /** The handled item stays ahead of the queue until the loop has finished it. */
  lemma HandledFrame(s: State, file: seq<Entry>)
    requires Inv(s) && s.loop.Got?
    requires Files(file, Bursts(s.queue), s.accepted, s.placed, s.generation, s.fileOpen)
    ensures Inv(s.(loop := Handled(s.loop.item), file := file))
  {
    var l := Handled(s.loop.item);
    assert Ahead(l, s.queue) == Ahead(s.loop, s.queue);
    assert Held(l) + Bursts(s.queue) == Bursts(s.queue);
  }

  lemma HandleStep(s: State)
    requires Inv(s) && Enabled(s, Handle)
    ensures Inv(Apply(s, Handle))
  {
    match s.loop.item {
      case Flush =>
        assert Held(s.loop) + Bursts(s.queue) == Bursts(s.queue);
        HandledFrame(s, s.file);
      case Samples(b) =>
        HandledFiles(s, b);
        HandledFrame(s, s.file + [Written(b)]);
    }
  }

  /** Dropping the first item keeps a last flush last, or answers it. */
  lemma FirstDone(c: Control, flushed: bool, fileOpen: bool, q: seq<Item>)
    requires FlushEnds(c, flushed, fileOpen, q) && q != []
    ensures FlushEnds(c, flushed || q[0].Flush?, fileOpen, q[1..])
  {
    if c.Waiting? && !flushed && |q| > 1 {
      assert q[..|q| - 1][0] == q[0];
    }
  }

  lemma FinishStep(s: State)
    requires Inv(s) && Enabled(s, Finish)
    ensures Inv(Apply(s, Finish))
  {
    FirstDone(s.control, s.flushed, s.fileOpen, Ahead(s.loop, s.queue));
    assert Ahead(Idle, s.queue) == Ahead(s.loop, s.queue)[1..];
    assert Held(s.loop) == Held(Idle);
  }

  predicate ControlMoves(step: Step) {
    step.Deactivate? || step.TakeBarrier? || step.LeaveBarrier? || step.Look? || step.AwaitFlush? || step.Activate?
  }

  lemma ControlStep(s: State, step: Step)
    requires Inv(s) && Enabled(s, step) && ControlMoves(step)
    ensures Inv(Apply(s, step))
  {}

  lemma AskFlushStep(s: State)
    requires Inv(s) && Enabled(s, AskFlush)
    ensures Inv(Apply(s, AskFlush))
  {
    var q := Ahead(s.loop, s.queue);
    assert (s.queue + [Flush])[..|s.queue|] == s.queue;
    assert Ahead(s.loop, s.queue + [Flush]) == q + [Flush];
    FlushAsked(s.control.starting, q);
    assert Bursts(s.queue + [Flush]) == Bursts(s.queue);
  }

  lemma FlushAsked(starting: bool, q: seq<Item>)
    requires NoFlush(q)
    ensures FlushEnds(Waiting(starting), false, true, q + [Flush])
  {
    assert (q + [Flush])[..|q|] == q;
  }

  lemma SealStep(s: State)
    requires Inv(s) && Enabled(s, SealFile)
    ensures Inv(Apply(s, SealFile))
  {
    assert Ahead(s.loop, s.queue) == [] ==> s.loop.Idle? && s.queue == [];
    assert Batches(s.file) + [] == Batches(s.file);
  }

  lemma OpenStep(s: State)
    requires Inv(s) && Enabled(s, OpenFile)
    ensures Inv(Apply(s, OpenFile))
  {
    NoneOf(s.accepted, s.generation + 1);
    NoneOf(s.placed, s.generation + 1);
    assert Ahead(s.loop, s.queue) == [] ==> s.loop.Idle? && s.queue == [];
  }

  lemma StepKeepsInv(s: State, step: Step)
    requires Inv(s) && Enabled(s, step)
    ensures Inv(Apply(s, step))
  {
    match step {
      case Enqueue(id) => if |s.queue| < QUEUE_CAPACITY { AcceptedStep(s, id); } else { LostStep(s, id); }
      case Place(id) => PlaceStep(s, id);
      case Dequeue => DequeueStep(s);
      case Handle => HandleStep(s);
      case Finish => FinishStep(s);
      case AskFlush => AskFlushStep(s);
      case SealFile => SealStep(s);
      case OpenFile => OpenStep(s);
      case _ => if SubmitterMoves(step) { SubmitterStep(s, step); } else { ControlStep(s, step); }
    }
  }

  lemma {:induction false} EveryRunKeepsInv(steps: seq<Step>)
    requires Run(steps).Some?
    ensures Inv(Run(steps).value)
  {
    if steps != [] {
      var before := steps[..|steps| - 1];
      EveryRunKeepsInv(before);
      StepKeepsInv(Run(before).value, steps[|steps| - 1]);
    }
  }

  // ------------------------------------------------------------ main results

  /** Every file a stop has sealed holds exactly the bursts that were taken into
      the queue for its generation, in the order they were taken, and exactly the
      packets placed in it: none is missing, and none of another generation is in
      it. */
  lemma SealedFilesComplete(steps: seq<Step>, i: nat)
    requires Run(steps).Some? && i < |Run(steps).value.seals|
    ensures var s := Run(steps).value;
      && Batches(s.seals[i].contents) == Of(s.accepted, s.seals[i].generation)
      && Packets(s.seals[i].contents) == Of(s.placed, s.seals[i].generation)
  {
    EveryRunKeepsInv(steps);
  }

  lemma SealsGrow(s: State, step: Step)
    requires Enabled(s, step)
    ensures s.seals <= Apply(s, step).seals
  {}

  lemma {:induction false} PrefixPossible(steps: seq<Step>, n: nat)
    requires Run(steps).Some? && n <= |steps|
    ensures Run(steps[..n]).Some?
    ensures Run(steps[..n]).value.seals <= Run(steps).value.seals
    decreases |steps|
  {
    if n == |steps| {
      assert steps[..n] == steps;
    } else {
      var before := steps[..|steps| - 1];
      PrefixPossible(before, n);
      assert before[..n] == steps[..n];
      SealsGrow(Run(before).value, steps[|steps| - 1]);
    }
  }

  /** Once a file is sealed, nothing more is taken for its generation or placed in
      it, whatever happens later. */
  lemma SealIsFinal(steps: seq<Step>, n: nat, i: nat)
    requires Run(steps).Some? && n <= |steps|
    requires Run(steps[..n]).Some? && i < |Run(steps[..n]).value.seals|
    ensures var seal := Run(steps[..n]).value.seals[i];
      && Of(Run(steps).value.accepted, seal.generation) == Batches(seal.contents)
      && Of(Run(steps).value.placed, seal.generation) == Packets(seal.contents)
  {
    PrefixPossible(steps, n);
    EveryRunKeepsInv(steps);
    assert Run(steps).value.seals[i] == Run(steps[..n]).value.seals[i];
  }

  /** The loop never meets a burst of another generation, so it discards none;
      every sample handed in is either in an accepted burst or counted as dropped;
      and the queue stays within its capacity. */
  lemma NothingGoesAstray(steps: seq<Step>)
    requires Run(steps).Some?
    ensures var s := Run(steps).value;
            s.discarded == 0 && s.offered == Total(s.accepted) + s.dropped && |s.queue| <= QUEUE_CAPACITY
  {
    EveryRunKeepsInv(steps);
  }

  lemma {:induction false} MemberOf(bs: seq<Burst>, b: Burst)
    requires b in bs
    ensures b in Of(bs, b.generation)
  {
    if bs[|bs| - 1] != b {
      MemberOf(bs[..|bs| - 1], b);
    }
  }

  lemma {:induction false} MemberOfFile(f: seq<Entry>, b: Burst)
    ensures b in Batches(f) ==> Written(b) in f
    ensures b in Packets(f) ==> Placed(b) in f
  {
    if f != [] { MemberOfFile(f[..|f| - 1], b); }
  }

  /** The entry that a submission leaves in the file of a generation. */
  function EntryOf(m: Submitter, id: nat, generation: nat): Entry {
    var b := Burst(generation, id, m.samples);
    if m.packet then Placed(b) else Written(b)
  }

  /** A submission that was taken, a burst or a packet, is in the sealed file of
      its generation, once there is one. */
  lemma TakenIsWritten(steps: seq<Step>, id: nat, i: nat)
    requires Run(steps).Some?
    requires var s := Run(steps).value;
             && i < |s.seals| && id in s.submitters
             && s.submitters[id].outcome == Taken(s.seals[i].generation)
    ensures var s := Run(steps).value;
            EntryOf(s.submitters[id], id, s.seals[i].generation) in s.seals[i].contents
  {
    EveryRunKeepsInv(steps);
    var s := Run(steps).value;
    var b := Burst(s.seals[i].generation, id, s.submitters[id].samples);
    MemberOf(if s.submitters[id].packet then s.placed else s.accepted, b);
    MemberOfFile(s.seals[i].contents, b);
  }

  /** A submission that has passed the active flag, of samples or of events, finds
      the file open, and holds off its sealing and the next file until it leaves. */
  lemma AdmittedHoldsOff(steps: seq<Step>, id: nat)
    requires Run(steps).Some?
    requires var s := Run(steps).value; id in s.submitters && Entering(s.submitters[id])
    ensures var s := Run(steps).value;
            s.fileOpen && !Enabled(s, SealFile) && !Enabled(s, OpenFile) && !Enabled(s, TakeBarrier)
  {
    EveryRunKeepsInv(steps);
  }

  // ------------------------------------------------------------ progress

  /** Steps a submitter has left, at most. */
  function Left(p: Phase): nat {
    match p
    case Locked => 4
    case Admitted => 3
    case Tagged(_) => 2
    case Leaving => 1
    case Done => 0
  }

  function AtLeast(m: map<nat, Submitter>, k: nat): set<nat> {
    set id | id in m && Left(m[id].phase) >= k
  }

  function AllLeft(m: map<nat, Submitter>): nat {
    |AtLeast(m, 1)| + |AtLeast(m, 2)| + |AtLeast(m, 3)| + |AtLeast(m, 4)|
  }

  lemma {:induction false} SubsetIsSmaller(a: set<nat>, b: set<nat>)
    requires a <= b
    ensures |a| <= |b| && (a != b ==> |a| < |b|)
  {
    if x :| x in a {
      SubsetIsSmaller(a - {x}, b - {x});
      assert a - {x} == b - {x} ==> a == b;
    }
  }

  lemma MovingOn(m: map<nat, Submitter>, id: nat, next: Submitter, k: nat)
    requires id in m && Left(next.phase) < Left(m[id].phase)
    ensures AtLeast(m[id := next], k) <= AtLeast(m, k)
    ensures k == Left(m[id].phase) ==> AtLeast(m[id := next], k) != AtLeast(m, k)
  {
    if k == Left(m[id].phase) {
      assert id in AtLeast(m, k) && id !in AtLeast(m[id := next], k);
    }
  }

  lemma LessIsLeft(m: map<nat, Submitter>, id: nat, next: Submitter)
    requires id in m && Left(next.phase) < Left(m[id].phase)
    ensures AllLeft(m[id := next]) < AllLeft(m)
  {
    forall k | 1 <= k <= 4
      ensures |AtLeast(m[id := next], k)| <= |AtLeast(m, k)|
      ensures k == Left(m[id].phase) ==> |AtLeast(m[id := next], k)| < |AtLeast(m, k)|
    {
      MovingOn(m, id, next, k);
      SubsetIsSmaller(AtLeast(m[id := next], k), AtLeast(m, k));
    }
  }

  function LoopLeft(l: Loop): nat {
    match l
    case Idle => 0
    case Handled(_) => 1
    case Got(_) => 2
  }

  function ControlLeft(c: Control): nat {
    match c
    case Free => 0
    case Inactive(_) => 8
    case Barrier(_) => 7
    case Passed(_) => 6
    case Looked(_, _) => 5
    case Waiting(_) => 4
    case Flushed(_) => 3
    case Sealed => 2
    case Opened => 1
  }

  /** Bounds the steps possible without a new submitter or call. A step that puts
      an item into the queue makes three more possible. */
  function Remaining(s: State): nat {
    5 * AllLeft(s.submitters) + 3 * |s.queue| + LoopLeft(s.loop) + 5 * ControlLeft(s.control)
  }

  predicate Arrives(step: Step) { step.Lock? || step.Deactivate? }

  lemma RemainingFalls(s: State, step: Step)
    requires Enabled(s, step) && !Arrives(step)
    ensures Remaining(Apply(s, step)) < Remaining(s)
  {
    if step.Admit? || step.Tag? || step.Enqueue? || step.Place? || step.Unlock? {
      MoverHasLess(s, step);
    }
  }

  /** A submitter's step leaves it less, and at most one more item in the queue. */
  lemma MoverHasLess(s: State, step: Step)
    requires Enabled(s, step) && (step.Admit? || step.Tag? || step.Enqueue? || step.Place? || step.Unlock?)
    ensures var t := Apply(s, step);
      && AllLeft(t.submitters) < AllLeft(s.submitters) && |t.queue| <= |s.queue| + 1
      && t.loop == s.loop && t.control == s.control
  {
    var x := Apply(s, step).submitters[step.id];
    OnlyMover(s, step);
    LessIsLeft(s.submitters, step.id, x);
  }

  lemma OnlyMover(s: State, step: Step)
    requires Enabled(s, step) && (step.Admit? || step.Tag? || step.Enqueue? || step.Place? || step.Unlock?)
    ensures var t, x := Apply(s, step), Apply(s, step).submitters[step.id];
            t.submitters == s.submitters[step.id := x] && Left(x.phase) < Left(s.submitters[step.id].phase)
  {}

  /** The next step of a submitter that holds the lock. */
  function NextOf(m: Submitter, id: nat): Step
    requires Reading(m)
  {
    match m.phase
    case Locked => Admit(id)
    case Admitted => if m.packet then Place(id) else Tag(id)
    case Tagged(_) => Enqueue(id)
    case Leaving => Unlock(id)
  }

  function NextOfLoop(l: Loop): Step {
    match l
    case Idle => Dequeue
    case Got(_) => Handle
    case Handled(_) => Finish
  }

  /** While a start or stop call is under way something can happen. */
  lemma NeverStuck(s: State) returns (step: Step)
    requires Inv(s) && !s.control.Free?
    ensures Enabled(s, step) && !Arrives(step)
  {
    match s.control {
      case Inactive(_) =>
        if id :| id in s.submitters && Reading(s.submitters[id]) {
          step := NextOf(s.submitters[id], id);
        } else {
          step := TakeBarrier;
        }
      case Barrier(_) => step := LeaveBarrier;
      case Passed(_) => step := Look;
      case Looked(_, hasFile) =>
        if !hasFile { step := SealFile; } else if |s.queue| < QUEUE_CAPACITY { step := AskFlush; }
        else { step := NextOfLoop(s.loop); }
      case Waiting(_) =>
        assert !s.flushed ==> Ahead(s.loop, s.queue) != [];
        step := if s.flushed then AwaitFlush else NextOfLoop(s.loop);
      case Flushed(_) => step := SealFile;
      case Sealed => step := OpenFile;
      case Opened => step := Activate;
    }
  }

  /** A start or stop call always comes to its end: without new submitters the
      steps left are bounded, and until the call has returned there is one. */
  lemma {:induction false} CallsComplete(steps: seq<Step>, more: seq<Step>)
    requires Run(steps + more).Some? && forall k :: 0 <= k < |more| ==> !Arrives(more[k])
    ensures Run(steps).Some?
    ensures Remaining(Run(steps + more).value) + |more| <= Remaining(Run(steps).value)
    ensures var t := Run(steps + more).value;
            !t.control.Free? ==> exists step :: Enabled(t, step) && !Arrives(step)
    decreases |more|
  {
    if more == [] {
      assert steps + more == steps;
    } else {
      var n := |more| - 1;
      assert (steps + more)[..|steps + more| - 1] == steps + more[..n];
      CallsComplete(steps, more[..n]);
      RemainingFalls(Run(steps + more[..n]).value, more[n]);
    }
    EveryRunKeepsInv(steps + more);
    var t := Run(steps + more).value;
    if !t.control.Free? {
      var step := NeverStuck(t);
    }
  }
}
