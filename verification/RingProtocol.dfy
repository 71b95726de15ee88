/** The ring with its producer and its consumer interleaved at every atomic load,
    slot access and counter update. */
module RingProtocol {
  import opened Bits
  import opened Ring
  import opened Wrappers
  import Arith

  /** A push: the head has been read, room has been found, the slot is written. */
  datatype Producer<T> = Resting | Started(item: T, head: nat) | HasRoom(item: T, head: nat) | Stored(item: T)

  /** A pop or a clear: the tail has been read, the items are being copied; the
      head to skip to has been read. */
  datatype Consumer<T> =
    | Asleep
    | Asked(want: nat, tail: nat)
    | Copying(tail: nat, n: nat, got: seq<T>)
    | Clearing(head: nat)

  /** What became of an accepted item that is no longer buffered. */
  datatype Removal<T> = Delivered(item: T) | Cleared

  datatype State<T> = State(slots: seq<T>, head: nat, tail: nat, producer: Producer<T>, consumer: Consumer<T>,
                            accepted: seq<T>, removed: seq<Removal<T>>)

  datatype Step<T> =
    | BeginPush(item: T)
    | CheckRoom
    | StoreItem
    | Publish
    | BeginPop(want: nat)
    | SeeHead
    | CopyOne
    | Retire
    | BeginClear
    | FinishClear

  function Initial<T>(slots: seq<T>): State<T> { State(slots, 0, 0, Resting, Asleep, [], []) }

  predicate Enabled<T>(s: State<T>, step: Step<T>) {
    && s.slots != []
    && match step
       case BeginPush(_) => s.producer.Resting?
       case CheckRoom => s.producer.Started?
       case StoreItem => s.producer.HasRoom? && And(s.producer.head, |s.slots| - 1) < |s.slots|
       case Publish => s.producer.Stored?
       case BeginPop(_) => s.consumer.Asleep?
       case SeeHead => s.consumer.Asked?
       case CopyOne => s.consumer.Copying? && |s.consumer.got| < s.consumer.n
                       && And((s.consumer.tail + |s.consumer.got|) % WORD64, |s.slots| - 1) < |s.slots|
       case Retire => s.consumer.Copying? && |s.consumer.got| == s.consumer.n
       case BeginClear => s.consumer.Asleep?
       case FinishClear => s.consumer.Clearing?
  }

  function Apply<T>(s: State<T>, step: Step<T>): State<T>
    requires Enabled(s, step)
  {
    match step
    case BeginPush(x) => s.(producer := Started(x, s.head))
    case CheckRoom =>
      if (s.producer.head - s.tail) % WORD64 >= |s.slots| then s.(producer := Resting)
      else s.(producer := HasRoom(s.producer.item, s.producer.head))
    case StoreItem =>
      s.(slots := s.slots[And(s.producer.head, |s.slots| - 1) := s.producer.item],
         producer := Stored(s.producer.item))
    case Publish =>
      s.(head := (s.head + 1) % WORD64, accepted := s.accepted + [s.producer.item], producer := Resting)
    case BeginPop(want) => s.(consumer := Asked(want, s.tail))
    case SeeHead =>
      var avail := (s.head - s.consumer.tail) % WORD64;
      if avail <= 0 then s.(consumer := Asleep)
      else s.(consumer := Copying(s.consumer.tail, if avail < s.consumer.want then avail else s.consumer.want, []))
    case CopyOne =>
      var c := s.consumer;
      var x := s.slots[And((c.tail + |c.got|) % WORD64, |s.slots| - 1)];
      s.(consumer := c.(got := c.got + [x]))
    case Retire =>
      var c := s.consumer;
      s.(tail := (s.tail + c.n) % WORD64, removed := s.removed + Delivery(c.got), consumer := Asleep)
    case BeginClear => s.(consumer := Clearing(s.head))
    case FinishClear =>
      var n := (s.consumer.head - s.tail) % WORD64;
      s.(tail := s.consumer.head, removed := s.removed + seq(n, _ => Cleared), consumer := Asleep)
  }

  function Delivery<T>(xs: seq<T>): (ds: seq<Removal<T>>)
    ensures |ds| == |xs| && forall i :: 0 <= i < |xs| ==> ds[i] == Delivered(xs[i])
  {
    seq(|xs|, i requires 0 <= i < |xs| => Delivered(xs[i]))
  }

  function Run<T>(slots: seq<T>, steps: seq<Step<T>>): Option<State<T>> {
    if steps == [] then Some(Initial(slots))
    else match Run(slots, steps[..|steps| - 1])
      case None => None
      case Some(s) =>
        if Enabled(s, steps[|steps| - 1]) then Some(Apply(s, steps[|steps| - 1])) else None
  }

  // ------------------------------------------------------------ invariant

  ghost predicate Counters<T>(s: State<T>) {
    && IsSize(|s.slots|)
    && |s.removed| <= |s.accepted| <= |s.removed| + |s.slots|
    && s.head == |s.accepted| % WORD64 && s.tail == |s.removed| % WORD64
  }

  /** The accepted items still buffered are in their slots; those delivered were
      the right ones. */
  ghost predicate Items<T>(s: State<T>)
    requires Counters(s)
  {
    && Window(s.slots, |s.removed|, |s.accepted| - |s.removed|) == s.accepted[|s.removed|..]
    && (forall j :: 0 <= j < |s.removed| && s.removed[j].Delivered? ==> s.removed[j].item == s.accepted[j])
  }

  ghost predicate ProducerKnows<T>(s: State<T>)
    requires Counters(s)
  {
    match s.producer
    case Resting => true
    case Started(_, h) => h == s.head
    case HasRoom(_, h) => h == s.head && |s.accepted| - |s.removed| < |s.slots|
    case Stored(x) => |s.accepted| - |s.removed| < |s.slots| && s.slots[|s.accepted| % |s.slots|] == x
  }

  ghost predicate ConsumerKnows<T>(s: State<T>)
    requires Counters(s)
  {
    match s.consumer
    case Asleep => true
    case Asked(_, t) => t == s.tail
    case Copying(t, n, got) =>
      t == s.tail && |got| <= n && |s.removed| + n <= |s.accepted|
      && got == s.accepted[|s.removed|..|s.removed| + |got|]
    case Clearing(h) =>
      var n := (h - s.tail) % WORD64;
      |s.removed| + n <= |s.accepted| && h == (|s.removed| + n) % WORD64
  }

  ghost predicate Inv<T>(s: State<T>) {
    Counters(s) && Items(s) && ProducerKnows(s) && ConsumerKnows(s)
  }

  lemma SlotOf(count: nat, size: nat)
    requires IsSize(size)
    ensures And(count % WORD64, size - 1) == count % size < size
  {
    MaskIsSlot(count, size);
  }

  lemma RegisterPlus(count: nat, n: nat)
    ensures (count % WORD64 + n) % WORD64 == (count + n) % WORD64
  {}

  // ------------------------------------------------------------ steps keep it

  lemma LooksKeepInv<T>(s: State<T>, step: Step<T>)
    requires Inv(s) && Enabled(s, step)
    requires step.BeginPush? || step.CheckRoom? || step.BeginPop? || step.SeeHead? || step.BeginClear?
    ensures Inv(Apply(s, step))
  {
    DifferenceIsTrue(|s.accepted|, |s.removed|);
    var t := Apply(s, step);
    assert t == s.(producer := t.producer, consumer := t.consumer);
  }

  lemma StoredInSlot<T>(s: State<T>, x: T, k: nat)
    requires Inv(s) && |s.accepted| - |s.removed| < |s.slots| && k == |s.accepted| % |s.slots|
    ensures Inv(s.(slots := s.slots[k := x], producer := Stored(x)))
  {
    var slots := s.slots[k := x];
    var r, n := |s.removed|, |s.accepted| - |s.removed|;
    StoreBehind(s.slots, r, n, x);
    assert r + n == |s.accepted| && Window(slots, r, n) == Window(s.slots, r, n);
  }

  lemma StoreKeepsInv<T>(s: State<T>)
    requires Inv(s) && Enabled(s, StoreItem)
    ensures Inv(Apply(s, StoreItem))
  {
    SlotOf(|s.accepted|, |s.slots|);
    StoredInSlot(s, s.producer.item, |s.accepted| % |s.slots|);
  }

  lemma PublishKeepsItems<T>(s: State<T>, t: State<T>, x: T)
    requires Counters(s) && Items(s) && s.producer == Stored(x) && ProducerKnows(s)
    requires t == s.(head := (|s.accepted| + 1) % WORD64, accepted := s.accepted + [x], producer := Resting)
    ensures Counters(t) && Items(t)
  {
    var r, n := |s.removed|, |s.accepted| - |s.removed|;
    assert t.accepted[r..] == s.accepted[r..] + [x];
    WindowGrows(s.slots, r, n);
    assert r + n == |s.accepted|;
  }

  lemma PublishKeepsConsumer<T>(s: State<T>, t: State<T>, x: T)
    requires Counters(s) && ConsumerKnows(s) && Counters(t)
    requires t == s.(head := (|s.accepted| + 1) % WORD64, accepted := s.accepted + [x], producer := Resting)
    ensures ConsumerKnows(t)
  {
    if s.consumer.Copying? {
      var r, k := |s.removed|, |s.consumer.got|;
      assert t.accepted[r..r + k] == s.accepted[r..r + k];
    }
  }

  lemma PublishKeepsInv<T>(s: State<T>)
    requires Inv(s) && Enabled(s, Publish)
    ensures Inv(Apply(s, Publish))
  {
    RegisterPlus(|s.accepted|, 1);
    var x := s.producer.item;
    var t := s.(head := (|s.accepted| + 1) % WORD64, accepted := s.accepted + [x], producer := Resting);
    assert Apply(s, Publish) == t;
    PublishKeepsItems(s, t, x);
    PublishKeepsConsumer(s, t, x);
  }

  lemma CopyKeepsInv<T>(s: State<T>)
    requires Inv(s) && Enabled(s, CopyOne)
    ensures Inv(Apply(s, CopyOne))
  {
    var i, r := |s.consumer.got|, |s.removed|;
    CopiesRightItem(s, r, i);
    var got := s.consumer.got + [s.accepted[r + i]];
    assert got == s.accepted[r..r + i + 1];
    assert Apply(s, CopyOne) == s.(consumer := s.consumer.(got := got));
  }

  lemma CopiesRightItem<T>(s: State<T>, r: nat, i: nat)
    requires Counters(s) && Items(s) && r == |s.removed| && r + i < |s.accepted|
    ensures And((s.tail + i) % WORD64, |s.slots| - 1) < |s.slots|
    ensures s.slots[And((s.tail + i) % WORD64, |s.slots| - 1)] == s.accepted[r + i]
  {
    RegisterPlus(r, i);
    SlotOf(r + i, |s.slots|);
    assert Window(s.slots, r, |s.accepted| - r)[i] == s.accepted[r..][i];
  }

  lemma RemoveKeepsItems<T>(s: State<T>, gone: seq<Removal<T>>, t: State<T>)
    requires Counters(s) && Items(s) && |s.removed| + |gone| <= |s.accepted|
    requires t == s.(removed := s.removed + gone, tail := (|s.removed| + |gone|) % WORD64, consumer := Asleep)
    requires forall i :: 0 <= i < |gone| && gone[i].Delivered? ==> gone[i].item == s.accepted[|s.removed| + i]
    ensures Counters(t) && Items(t)
  {
    var r, n := |s.removed|, |gone|;
    WindowSplits(s.slots, r, |s.accepted| - r, n);
    assert s.accepted[r..][n..] == s.accepted[r + n..];
  }

  lemma RetireKeepsInv<T>(s: State<T>)
    requires Inv(s) && Enabled(s, Retire)
    ensures Inv(Apply(s, Retire))
  {
    RegisterPlus(|s.removed|, s.consumer.n);
    var got := s.consumer.got;
    assert forall i :: 0 <= i < |got| ==> got[i] == s.accepted[|s.removed| + i];
    RemoveKeepsItems(s, Delivery(got), Apply(s, Retire));
  }

  lemma ClearKeepsInv<T>(s: State<T>)
    requires Inv(s) && Enabled(s, FinishClear)
    ensures Inv(Apply(s, FinishClear))
  {
    var n := (s.consumer.head - s.tail) % WORD64;
    RemoveKeepsItems(s, seq(n, _ => Cleared), Apply(s, FinishClear));
  }

  lemma StepKeepsInv<T>(s: State<T>, step: Step<T>)
    requires Inv(s) && Enabled(s, step)
    ensures Inv(Apply(s, step))
  {
    match step {
      case StoreItem => StoreKeepsInv(s);
      case Publish => PublishKeepsInv(s);
      case CopyOne => CopyKeepsInv(s);
      case Retire => RetireKeepsInv(s);
      case FinishClear => ClearKeepsInv(s);
      case _ => LooksKeepInv(s, step);
    }
  }

  lemma {:induction false} EveryRunKeepsInv<T>(slots: seq<T>, steps: seq<Step<T>>)
    requires IsSize(|slots|) && Run(slots, steps).Some?
    ensures Inv(Run(slots, steps).value)
  {
    if steps != [] {
      var before := steps[..|steps| - 1];
      EveryRunKeepsInv(slots, before);
      StepKeepsInv(Run(slots, before).value, steps[|steps| - 1]);
    }
  }

  // ------------------------------------------------------------ main results

  /** Over every interleaving the registers differ by what is buffered, which
      never exceeds the capacity. */
  lemma NeverOverfull<T>(slots: seq<T>, steps: seq<Step<T>>)
    requires IsSize(|slots|) && Run(slots, steps).Some?
    ensures var s := Run(slots, steps).value;
            0 <= |s.accepted| - |s.removed| == (s.head - s.tail) % WORD64 <= |s.slots|
  {
    EveryRunKeepsInv(slots, steps);
    var s := Run(slots, steps).value;
    DifferenceIsTrue(|s.accepted|, |s.removed|);
  }

  /** The consumer's next slot. */
  lemma NextRead<T>(s: State<T>)
    requires Inv(s) && s.consumer.Copying? && |s.consumer.got| < s.consumer.n
    ensures And((s.consumer.tail + |s.consumer.got|) % WORD64, |s.slots| - 1)
         == (|s.removed| + |s.consumer.got|) % |s.slots|
  {
    RegisterPlus(|s.removed|, |s.consumer.got|);
    SlotOf(|s.removed| + |s.consumer.got|, |s.slots|);
  }

  lemma NextWrite<T>(s: State<T>)
    requires Inv(s) && s.producer.HasRoom?
    ensures And(s.producer.head, |s.slots| - 1) == |s.accepted| % |s.slots|
  {
    SlotOf(|s.accepted|, |s.slots|);
  }

  /** The slot about to be written is not the slot about to be read. */
  lemma NoSlotClash<T>(slots: seq<T>, steps: seq<Step<T>>)
    requires IsSize(|slots|) && Run(slots, steps).Some?
    ensures var s := Run(slots, steps).value;
            s.producer.HasRoom? && s.consumer.Copying? && |s.consumer.got| < s.consumer.n ==>
              And(s.producer.head, |s.slots| - 1)
              != And((s.consumer.tail + |s.consumer.got|) % WORD64, |s.slots| - 1)
  {
    EveryRunKeepsInv(slots, steps);
    var s := Run(slots, steps).value;
    if s.producer.HasRoom? && s.consumer.Copying? && |s.consumer.got| < s.consumer.n {
      NextWrite(s);
      NextRead(s);
      Arith.CloseModuloDiffer(|s.removed| + |s.consumer.got|, |s.accepted|, |s.slots|);
    }
  }

  /** Nothing is lost, repeated or reordered: the j-th item to leave the ring is the
      j-th accepted, and the ring holds the rest in order. */
  lemma InOrder<T>(slots: seq<T>, steps: seq<Step<T>>)
    requires IsSize(|slots|) && Run(slots, steps).Some?
    ensures var s := Run(slots, steps).value;
      && |s.removed| <= |s.accepted| && s.slots != []
      && (forall j :: 0 <= j < |s.removed| && s.removed[j].Delivered? ==> s.removed[j].item == s.accepted[j])
      && Window(s.slots, |s.removed|, |s.accepted| - |s.removed|) == s.accepted[|s.removed|..]
  {
    EveryRunKeepsInv(slots, steps);
  }

  function Popped<T>(ds: seq<Removal<T>>): (xs: seq<T>)
    requires forall j :: 0 <= j < |ds| ==> ds[j].Delivered?
    ensures |xs| == |ds| && forall j :: 0 <= j < |ds| ==> xs[j] == ds[j].item
  {
    seq(|ds|, j requires 0 <= j < |ds| => ds[j].item)
  }

  /** Without a clear, what was popped followed by what is buffered is what was
      accepted. */
  lemma PoppedThenBuffered<T>(slots: seq<T>, steps: seq<Step<T>>)
    requires IsSize(|slots|) && Run(slots, steps).Some?
    requires var s := Run(slots, steps).value; forall j :: 0 <= j < |s.removed| ==> s.removed[j].Delivered?
    ensures var s := Run(slots, steps).value;
      && |s.removed| <= |s.accepted| && s.slots != []
      && Popped(s.removed) + Window(s.slots, |s.removed|, |s.accepted| - |s.removed|) == s.accepted
  {
    InOrder(slots, steps);
    var s := Run(slots, steps).value;
    assert Popped(s.removed) == s.accepted[..|s.removed|];
    assert s.accepted[..|s.removed|] + s.accepted[|s.removed|..] == s.accepted;
  }

  lemma RoomTest<T>(s: State<T>)
    requires Inv(s) && s.producer.Started?
    ensures Apply(s, CheckRoom).producer.Resting? <==> |s.accepted| - |s.removed| == |s.slots|
  {
    DifferenceIsTrue(|s.accepted|, |s.removed|);
  }

  /** A push is turned away exactly when the ring is full at the moment the tail
      is read. */
  lemma RejectedExactlyWhenFull<T>(slots: seq<T>, steps: seq<Step<T>>)
    requires IsSize(|slots|) && Run(slots, steps).Some?
    ensures var s := Run(slots, steps).value;
            s.producer.Started? && s.slots != [] ==>
              (Apply(s, CheckRoom).producer.Resting? <==> |s.accepted| - |s.removed| == |s.slots|)
  {
    EveryRunKeepsInv(slots, steps);
    var s := Run(slots, steps).value;
    if s.producer.Started? { RoomTest(s); }
  }

  lemma StoreInRange<T>(s: State<T>)
    requires Inv(s) && s.producer.HasRoom?
    ensures Enabled(s, StoreItem)
  {
    SlotOf(|s.accepted|, |s.slots|);
  }

  lemma CopyInRange<T>(s: State<T>)
    requires Inv(s) && s.consumer.Copying?
    ensures Enabled(s, CopyOne) || Enabled(s, Retire)
  {
    if |s.consumer.got| < s.consumer.n {
      RegisterPlus(|s.removed|, |s.consumer.got|);
      SlotOf(|s.removed| + |s.consumer.got|, |s.slots|);
    }
  }

  /** Every masked index is in range, so neither side ever gets stuck. */
  lemma NeverStuck<T>(slots: seq<T>, steps: seq<Step<T>>)
    requires IsSize(|slots|) && Run(slots, steps).Some?
    ensures var s := Run(slots, steps).value;
      && (s.producer.HasRoom? ==> Enabled(s, StoreItem))
      && (s.consumer.Copying? ==> Enabled(s, CopyOne) || Enabled(s, Retire))
  {
    EveryRunKeepsInv(slots, steps);
    var s := Run(slots, steps).value;
    if s.producer.HasRoom? { StoreInRange(s); }
    if s.consumer.Copying? { CopyInRange(s); }
  }

  // ------------------------------------------------------------ what a call takes

  /** How many items are buffered. */
  function Buffered<T>(s: State<T>): int { |s.accepted| - |s.removed| }

  /** How many items the last pop asked for. */
  function LastWant<T>(steps: seq<Step<T>>): nat {
    if steps == [] then 0
    else match steps[|steps| - 1]
      case BeginPop(want) => want
      case _ => LastWant(steps[..|steps| - 1])
  }

  /** How many items were buffered when the consumer last read the head, to pop. */
  function LastSeen<T>(slots: seq<T>, steps: seq<Step<T>>): int {
    if steps == [] then 0
    else
      var before := steps[..|steps| - 1];
      if steps[|steps| - 1].SeeHead? && Run(slots, before).Some? then Buffered(Run(slots, before).value)
      else LastSeen(slots, before)
  }

  /** How many items had been accepted when the consumer last read the head, to clear. */
  function LastBehind<T>(slots: seq<T>, steps: seq<Step<T>>): nat {
    if steps == [] then 0
    else
      var before := steps[..|steps| - 1];
      if steps[|steps| - 1].BeginClear? && Run(slots, before).Some? then |Run(slots, before).value.accepted|
      else LastBehind(slots, before)
  }

  function Least(a: int, b: int): int { if a < b then a else b }

  /** What the consumer is about to take is what its call promised. */
  ghost predicate CallKnows<T>(s: State<T>, want: nat, seen: int, behind: nat) {
    match s.consumer
    case Asleep => true
    case Asked(w, _) => w == want
    case Copying(_, n, _) => n == Least(want, seen) && seen > 0
    case Clearing(h) => |s.removed| <= behind <= |s.accepted| && h == behind % WORD64
  }

  lemma StepKeepsCall<T>(s: State<T>, step: Step<T>, want: nat, seen: int, behind: nat)
    requires Inv(s) && Enabled(s, step) && CallKnows(s, want, seen, behind)
    ensures CallKnows(Apply(s, step),
                      if step.BeginPop? then step.want else want,
                      if step.SeeHead? then Buffered(s) else seen,
                      if step.BeginClear? then |s.accepted| else behind)
  {
    DifferenceIsTrue(|s.accepted|, |s.removed|);
  }

  lemma {:induction false} RunKeepsCall<T>(slots: seq<T>, steps: seq<Step<T>>)
    requires IsSize(|slots|) && Run(slots, steps).Some?
    ensures CallKnows(Run(slots, steps).value, LastWant(steps), LastSeen(slots, steps), LastBehind(slots, steps))
  {
    if steps != [] {
      var before := steps[..|steps| - 1];
      EveryRunKeepsInv(slots, before);
      RunKeepsCall(slots, before);
      StepKeepsCall(Run(slots, before).value, steps[|steps| - 1],
                    LastWant(before), LastSeen(slots, before), LastBehind(slots, before));
    }
  }

  lemma RetiresExactly<T>(s: State<T>)
    requires Inv(s) && Enabled(s, Retire)
    ensures var t, r := Apply(s, Retire), |s.removed|;
            r + s.consumer.n <= |s.accepted| && t.removed == s.removed + Delivery(s.accepted[r..r + s.consumer.n])
  {
    assert s.consumer.got == s.accepted[|s.removed|..|s.removed| + s.consumer.n];
  }

  /** Over every interleaving a pop takes the oldest items: as many as were asked
      for, or all that were buffered when it read the head, if those were fewer. */
  lemma PopTakesExactly<T>(slots: seq<T>, steps: seq<Step<T>>)
    requires IsSize(|slots|) && Run(slots, steps).Some? && Enabled(Run(slots, steps).value, Retire)
    ensures var s := Run(slots, steps).value;
            var t, r, n := Apply(s, Retire), |s.removed|, Least(LastWant(steps), LastSeen(slots, steps));
            0 <= n && r + n <= |s.accepted| && t.removed == s.removed + Delivery(s.accepted[r..r + n])
  {
    EveryRunKeepsInv(slots, steps);
    RunKeepsCall(slots, steps);
    RetiresExactly(Run(slots, steps).value);
  }

  /** It takes nothing, and ends at once, exactly when nothing is buffered then. */
  lemma PopEndsExactly<T>(slots: seq<T>, steps: seq<Step<T>>)
    requires IsSize(|slots|) && Run(slots, steps).Some? && Enabled(Run(slots, steps).value, SeeHead)
    ensures var s := Run(slots, steps).value;
            Apply(s, SeeHead).consumer.Asleep? <==> |s.removed| == |s.accepted|
  {
    EveryRunKeepsInv(slots, steps);
    var s := Run(slots, steps).value;
    DifferenceIsTrue(|s.accepted|, |s.removed|);
  }

  lemma ClearTakes<T>(s: State<T>, behind: nat)
    requires Inv(s) && Enabled(s, FinishClear) && |s.removed| <= behind <= |s.accepted|
    requires s.consumer.head == behind % WORD64
    ensures Apply(s, FinishClear).removed == s.removed + seq(behind - |s.removed|, _ => Cleared)
  {
    DifferenceIsTrue(behind, |s.removed|);
    assert (s.consumer.head - s.tail) % WORD64 == behind - |s.removed|;
  }

  /** A clear removes exactly what was in the ring when it read the head; items
      accepted after that stay. */
  lemma ClearTakesExactly<T>(slots: seq<T>, steps: seq<Step<T>>)
    requires IsSize(|slots|) && Run(slots, steps).Some? && Enabled(Run(slots, steps).value, FinishClear)
    ensures var s, behind := Run(slots, steps).value, LastBehind(slots, steps);
      && |s.removed| <= behind <= |s.accepted|
      && Apply(s, FinishClear).removed == s.removed + seq(behind - |s.removed|, _ => Cleared)
  {
    EveryRunKeepsInv(slots, steps);
    RunKeepsCall(slots, steps);
    ClearTakes(Run(slots, steps).value, LastBehind(slots, steps));
  }
}
