/** The recorder as a whole: the interleaved protocol decides which submissions
    reach a file and in which order, the capture what the file then holds. */
module CaptureSystem {
  import opened Bytes
  import opened Frame
  import opened Capture
  import opened CaptureSeal
  import P = StopProtocol
  import L = CaptureFile
  import R = Recorder
  import T = CaptureTimeline

  /** What each submitter handed in. */
  datatype Payload = Payload(samples: nat -> seq<Sample>, events: nat -> seq<Event>)

  function OperationOf(e: P.Entry, load: Payload): R.Operation {
    match e
    case Written(b) => R.Burst(load.samples(b.id))
    case Placed(b) => R.Packet(load.events(b.id))
  }

  /** What was done to a file, in order. */
  function Operations(f: seq<P.Entry>, load: Payload): (ops: seq<R.Operation>)
    ensures |ops| == |f|
  {
    if f == [] then [] else Operations(f[..|f| - 1], load) + [OperationOf(f[|f| - 1], load)]
  }

  /** Everything that arrives at a file. */
  function ArrivalsAt(f: seq<P.Entry>, load: Payload): seq<Arrival> {
    R.ArrivalsOf(Operations(f, load))
  }

  lemma {:induction false} EntryArrives(f: seq<P.Entry>, e: P.Entry, load: Payload)
    requires e in f
    ensures forall x :: x in OperationOf(e, load).Arrivals() ==> x in ArrivalsAt(f, load)
  {
    var n := |f| - 1;
    assert Operations(f, load)[..n] == Operations(f[..n], load);
    if f[n] != e {
      EntryArrives(f[..n], e, load);
    }
  }

  /** Everything of a submission that was taken arrives at the file of its
      generation, once that is sealed. */
  lemma TakenArrives(steps: seq<P.Step>, id: nat, i: nat, load: Payload)
    requires P.Run(steps).Some?
    requires var s := P.Run(steps).value;
             && i < |s.seals| && id in s.submitters
             && s.submitters[id].outcome == P.Taken(s.seals[i].generation)
    ensures var s := P.Run(steps).value;
            var xs := ArrivalsAt(s.seals[i].contents, load);
            if s.submitters[id].packet then forall e :: e in load.events(id) ==> PwmArrival(e) in xs
            else forall x :: x in load.samples(id) ==> SampleArrival(x) in xs
  {
    var s := P.Run(steps).value;
    var e := P.EntryOf(s.submitters[id], id, s.seals[i].generation);
    P.TakenIsWritten(steps, id, i);
    EntryArrives(s.seals[i].contents, e, load);
    if s.submitters[id].packet {
      forall v | v in load.events(id)
        ensures PwmArrival(v) in ArrivalsAt(s.seals[i].contents, load)
      {
        var k :| 0 <= k < |load.events(id)| && load.events(id)[k] == v;
        assert R.FromEvents(load.events(id))[k] == PwmArrival(v);
      }
    } else {
      forall v | v in load.samples(id)
        ensures SampleArrival(v) in ArrivalsAt(s.seals[i].contents, load)
      {
        var k :| 0 <= k < |load.samples(id)| && load.samples(id)[k] == v;
        assert R.FromSamples(load.samples(id))[k] == SampleArrival(v);
      }
    }
  }

  lemma {:induction false} OnlyEntriesArrive(f: seq<P.Entry>, load: Payload, x: Arrival)
    requires x in ArrivalsAt(f, load)
    ensures match x
            case SampleArrival(s) => exists b :: b in P.Batches(f) && s in load.samples(b.id)
            case PwmArrival(e) => exists b :: b in P.Packets(f) && e in load.events(b.id)
  {
    var n := |f| - 1;
    assert Operations(f, load)[..n] == Operations(f[..n], load);
    if x in ArrivalsAt(f[..n], load) {
      OnlyEntriesArrive(f[..n], load, x);
    } else {
      var b := f[n].burst;
      var xs := OperationOf(f[n], load).Arrivals();
      var k :| 0 <= k < |xs| && xs[k] == x;
      if f[n].Written? {
        assert load.samples(b.id)[k] == x.sample && b in P.Batches(f);
      } else {
        assert load.events(b.id)[k] == x.event && b in P.Packets(f);
      }
    }
  }

  /** Nothing else arrives: what arrives at a sealed file was handed in with a
      burst taken for its generation, or a packet placed in it. */
  lemma OnlyTakenArrive(steps: seq<P.Step>, i: nat, load: Payload, x: Arrival)
    requires P.Run(steps).Some? && i < |P.Run(steps).value.seals|
    requires x in ArrivalsAt(P.Run(steps).value.seals[i].contents, load)
    ensures var s := P.Run(steps).value;
            var g := s.seals[i].generation;
            match x
            case SampleArrival(v) => exists b :: b in P.Of(s.accepted, g) && v in load.samples(b.id)
            case PwmArrival(e) => exists b :: b in P.Of(s.placed, g) && e in load.events(b.id)
  {
    P.SealedFilesComplete(steps, i);
    OnlyEntriesArrive(P.Run(steps).value.seals[i].contents, load, x);
  }

  /** However submitters, writer loop, starts and stops interleave: a sealed file
      reads as the newest epoch's samples and events, out of all that was taken for
      its generation, at their true distances. */
  lemma EverySealedFileReadsTrue(steps: seq<P.Step>, i: nat, load: Payload, es: seq<nat>, epoch: u16,
                                 sampleTimes: seq<nat>, eventTimes: seq<nat>, meta: seq<byte>,
                                 timeBits: nat -> u32, extra: bool, json: L.Remarshalled)
    requires P.Run(steps).Some? && i < |P.Run(steps).value.seals|
    requires |meta| < L.WORD && !json.Fails? && (json.Json? ==> |json.bytes| < L.WORD)
    requires var f := P.Run(steps).value.seals[i].contents;
             var xs := ArrivalsAt(f, load);
      && TrueEpochs(xs, es) && xs != [] && |R.Session(Operations(f, load)).records| < L.WORD
      && (var kept := Of(xs, es, Newest(es));
          && T.SamplesOf(kept) != [] && T.SampledAt(T.SamplesOf(kept), sampleTimes, epoch) && T.Paced(sampleTimes)
          && T.SeenAt(T.EventsOf(kept), eventTimes) && T.Paced(eventTimes) && |eventTimes| <= MAX_PWM_EVENTS
          && T.KeptRightly(sampleTimes[0], eventTimes))
    ensures forall k :: 0 <= k < |sampleTimes| ==> sampleTimes[0] <= sampleTimes[k]
    ensures var s := P.Run(steps).value;
            var f := s.seals[i].contents;
            var kept := Of(ArrivalsAt(f, load), es, Newest(es));
      && P.Batches(f) == P.Of(s.accepted, s.seals[i].generation)
      && P.Packets(f) == P.Of(s.placed, s.seals[i].generation)
      && ReadsTrue(R.Stopped(meta, R.Session(Operations(f, load)), timeBits, extra, json),
                   R.MetaShown(meta, extra, json), T.SamplesOf(kept), sampleTimes, T.EventsOf(kept), eventTimes,
                   timeBits)
  {
    var f := P.Run(steps).value.seals[i].contents;
    P.SealedFilesComplete(steps, i);
    R.SessionReadsTrue(Operations(f, load), es, epoch, sampleTimes, eventTimes, meta, timeBits, extra, json);
  }
}
