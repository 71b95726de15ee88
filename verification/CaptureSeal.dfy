/** What the recorder's file holds, while recording and once sealed. The sample
    time, a 32-bit float on disk, is an opaque word computed from the elapsed
    cycles. */
module CaptureSeal {
  import opened Bytes
  import opened Counters
  import opened Capture
  import opened Sorting
  import opened Wrappers
  import opened Frame
  import L = CaptureFile
  import T = CaptureTimeline

  // ------------------------------------------------------------ contents

  function RowOf(r: Record, timeBits: nat -> u32): L.Row {
    L.Row(timeBits(r.elapsed), r.ia, r.ib, r.fluxA, r.fluxB, r.speed)
  }

  function Rows(records: seq<Record>, timeBits: nat -> u32): (rows: seq<L.Row>)
    ensures |rows| == |records|
    ensures forall i :: 0 <= i < |records| ==> rows[i] == RowOf(records[i], timeBits)
  {
    seq(|records|, i requires 0 <= i < |records| => RowOf(records[i], timeBits))
  }

  /** The head of a file being recorded: its header, and no count yet. */
  function Head(meta: seq<byte>): seq<byte> {
    L.Header(L.FORMAT_VERSION, meta) + LE32(0)
  }

  /** The sealed file. */
  function Sealed(meta: seq<byte>, c: Capture, timeBits: nat -> u32): seq<byte> {
    L.Header(L.FORMAT_VERSION, meta) + L.Body(Rows(c.records, timeBits), SortByCycles(c.pwm.records))
  }

  // ------------------------------------------------------------ stable sort

  predicate NotLater(x: PwmRecord, y: PwmRecord) { x.cycles <= y.cycles }

  function SortByCycles(s: seq<PwmRecord>): (r: seq<PwmRecord>)
    ensures |r| == |s|
  {
    Sort(s, NotLater)
  }

  /** The events of one time stamp, in their order. */
  function At(s: seq<PwmRecord>, cycles: u32): seq<PwmRecord> {
    Filter(s, (e: PwmRecord) => e.cycles == cycles)
  }

  /** The sorted events: in order of time, the same events, and those of equal
      time in the order they came. */
  lemma SortIsStable(s: seq<PwmRecord>)
    ensures Ordered(SortByCycles(s), NotLater) && multiset(SortByCycles(s)) == multiset(s)
    ensures forall cycles: u32 :: At(SortByCycles(s), cycles) == At(s, cycles)
  {
    SortOrders(s, NotLater);
    SortPermutes(s, NotLater);
    forall cycles: u32
      ensures At(SortByCycles(s), cycles) == At(s, cycles)
    {
      SortKeepsAlike(s, NotLater, (e: PwmRecord) => e.cycles == cycles);
    }
  }

  // ------------------------------------------------------------ bytes

  /** A write at a position: what lies behind is kept, a gap is filled with zeros. */
  function Overwrite(b: seq<byte>, pos: nat, data: seq<byte>): seq<byte> {
    var padded := if pos <= |b| then b else b + L.Zeros(pos - |b|);
    padded[..pos] + data + (if pos + |data| <= |padded| then padded[pos + |data|..] else [])
  }

  lemma {:induction false} WordsAppend(a: seq<u32>, b: seq<u32>)
    ensures L.EncodeWords(a + b) == L.EncodeWords(a) + L.EncodeWords(b)
  {
    if b == [] {
      assert a + b == a;
    } else {
      var n := |b| - 1;
      WordsAppend(a, b[..n]);
      assert (a + b)[..|a + b| - 1] == a + b[..n];
    }
  }

  lemma RowsOneMore(records: seq<Record>, r: Record, timeBits: nat -> u32)
    ensures L.EncodeRows(Rows(records + [r], timeBits))
         == L.EncodeRows(Rows(records, timeBits)) + L.EncodeWords(L.Values(RowOf(r, timeBits)))
  {
    var rows, row := Rows(records, timeBits), RowOf(r, timeBits);
    assert Rows(records + [r], timeBits) == rows + [row];
    assert (rows + [row])[..|rows|] == rows;
    WordsAppend(L.AllValues(rows), L.Values(row));
  }

  /** Cut back to its count field, the file is that of an empty capture. */
  lemma CutBack(b: seq<byte>, tail: seq<byte>, head: seq<byte>, records: seq<Record>, timeBits: nat -> u32)
    requires b + tail == head + L.EncodeRows(Rows(records, timeBits)) && |head| <= |b|
    ensures b[..|head|] == head + L.EncodeRows(Rows([], timeBits))
  {
    assert (b + tail)[..|head|] == head;
    assert L.EncodeRows(Rows([], timeBits)) == [];
  }

  /** One more row behind the file's. */
  lemma ImageOneMore(b: seq<byte>, tail: seq<byte>, row: seq<byte>, head: seq<byte>, records: seq<Record>,
                     r: Record, timeBits: nat -> u32)
    requires b + tail == head + L.EncodeRows(Rows(records, timeBits))
    requires row == L.EncodeWords(L.Values(RowOf(r, timeBits)))
    ensures b + (tail + row) == head + L.EncodeRows(Rows(records + [r], timeBits))
  {
    RowsOneMore(records, r, timeBits);
    assert b + (tail + row) == (b + tail) + row;
    var rows := L.EncodeRows(Rows(records, timeBits));
    assert head + (rows + row) == (head + rows) + row;
  }

  lemma WriteAtEnd(b: seq<byte>, data: seq<byte>)
    ensures Overwrite(b, |b|, data) == b + data
  {}

  /** Writing the count over its place. */
  lemma WriteCount(header: seq<byte>, zero: seq<byte>, rest: seq<byte>, count: seq<byte>)
    requires |zero| == |count|
    ensures Overwrite(header + zero + rest, |header|, count) == header + count + rest
  {
    var b := header + zero + rest;
    assert b[..|header|] == header && b[|header| + |count|..] == rest;
  }

  /** Writing the header, then the count behind the alignment gap. */
  lemma WriteHead(meta: seq<byte>)
    ensures var prefix := L.MAGIC + [L.FORMAT_VERSION] + LE32(Low(|meta|)) + meta;
            var at := L.Align8(|prefix|);
            Overwrite(Overwrite([], 0, prefix), at, LE32(0)) == Head(meta)
            && at == |L.Header(L.FORMAT_VERSION, meta)|
  {
    var prefix := L.MAGIC + [L.FORMAT_VERSION] + LE32(Low(|meta|)) + meta;
    WriteAtEnd([], prefix);
    assert [] + prefix == prefix;
  }

  // ------------------------------------------------------------ sealed captures

  /** A sealed capture reads back exactly: the stored samples in order, the
      events sorted; as long as the counts fit their fields, and only then. */
  lemma SealedReadsBack(meta: seq<byte>, c: Capture, timeBits: nat -> u32)
    requires |c.pwm.records| <= MAX_PWM_EVENTS
    ensures L.Parse(Sealed(meta, c, timeBits))
         == Ok(L.Parsed(L.FORMAT_VERSION, meta, Rows(c.records, timeBits), SortByCycles(c.pwm.records)))
       <==> |meta| < WORD && |c.records| < WORD
  {
    L.FileRoundTrip(L.FORMAT_VERSION, meta, Rows(c.records, timeBits), SortByCycles(c.pwm.records));
  }

  /** The rewriting of a sealed file's metadata never falls out of range. */
  lemma SealedCanBeMerged(meta: seq<byte>, c: Capture, timeBits: nat -> u32, extra: bool, json: L.Remarshalled)
    requires !json.Fails?
    ensures L.MergeMeta(Sealed(meta, c, timeBits), extra, json).Bytes?
  {
    var body := L.Body(Rows(c.records, timeBits), SortByCycles(c.pwm.records));
    var data := L.Header(L.FORMAT_VERSION, meta) + body;
    L.HeaderParts(L.FORMAT_VERSION, meta, body);
    AlignKeepsOrder(L.PREFIX + Low(|meta|), L.PREFIX + |meta|);
    assert |data| >= |L.Header(L.FORMAT_VERSION, meta)|;
  }

  lemma AlignKeepsOrder(a: nat, b: nat)
    requires a <= b
    ensures L.Align8(a) <= L.Align8(b)
  {}

  /** So does one whose metadata was rewritten afterwards. */
  lemma MergedReadsBack(meta: seq<byte>, c: Capture, timeBits: nat -> u32, json: seq<byte>)
    requires 0 < |meta| <= L.MAX_META && |c.records| < WORD && |c.pwm.records| <= MAX_PWM_EVENTS
    ensures match L.MergeMeta(Sealed(meta, c, timeBits), true, L.Json(json))
            case Bytes(out) =>
              L.Parse(out)
              == Ok(L.Parsed(L.FORMAT_VERSION, json, Rows(c.records, timeBits), SortByCycles(c.pwm.records)))
              <==> |json| < WORD
            case _ => false
  {
    var data := Sealed(meta, c, timeBits);
    var body := L.Body(Rows(c.records, timeBits), SortByCycles(c.pwm.records));
    SealedReadsBack(meta, c, timeBits);
    L.HeaderParts(L.FORMAT_VERSION, meta, body);
    L.MergeKeepsCapture(data, true, L.Json(json));
  }

  /** From a whole run of arrivals to the file and back: the reader finds exactly
      the newest epoch's samples that advance, in order, and a sorted permutation
      of its events, whatever else arrived. */
  lemma SealedRun(xs: seq<Arrival>, es: seq<nat>, meta: seq<byte>, timeBits: nat -> u32)
    requires TrueEpochs(xs, es) && xs != [] && |meta| < WORD
    requires |Run(xs).records| < WORD
    ensures var kept := Run(Of(xs, es, Newest(es)));
            L.Parse(Sealed(meta, Run(xs), timeBits)) ==
            Ok(L.Parsed(L.FORMAT_VERSION, meta, Rows(kept.records, timeBits), SortByCycles(kept.pwm.records)))
  {
    KeepsNewestEpoch(xs, es);
    RunIsSound(xs);
    SealedReadsBack(meta, Run(xs), timeBits);
  }

  lemma {:induction false} OfIsOneEpoch(xs: seq<Arrival>, es: seq<nat>, epoch: nat)
    requires |xs| == |es| && forall i :: 0 <= i < |xs| ==> Mask(xs[i].Epoch()) == es[i] % EPOCHS
    ensures T.OneEpoch(Of(xs, es, epoch), epoch % EPOCHS)
  {
    if xs != [] { OfIsOneEpoch(xs[..|xs| - 1], es[..|es| - 1], epoch); }
  }

  lemma {:induction false} SamplesAreOfEpoch(xs: seq<Arrival>, epoch: epoch14)
    requires T.OneEpoch(xs, epoch)
    ensures forall s :: s in T.SamplesOf(xs) ==> Mask(s.epoch) == epoch
  {
    if xs != [] {
      assert xs[|xs| - 1] in xs;
      SamplesAreOfEpoch(xs[..|xs| - 1], epoch);
    }
  }

  /** A row read back holds a sample's five measured words, each in its own column,
      and its time. */
  predicate ShowsSample(row: L.Row, s: Sample, time: u32) {
    && row.time == time
    && row.ia == s.ia && row.ib == s.ib && row.fluxA == s.fluxA && row.fluxB == s.fluxB && row.speed == s.speed
  }

  /** The rows are exactly the advancing samples, in order, at their true distances
      from the first. */
  ghost predicate ShowsSamples(rows: seq<L.Row>, ss: seq<Sample>, ts: seq<nat>, timeBits: nat -> u32)
    requires |ss| == |ts| && forall i :: 0 <= i < |ts| ==> ts[0] <= ts[i]
  {
    exists idx ::
      && T.AreAdvancing(idx, ts) && |rows| == |idx|
      && forall j :: 0 <= j < |idx| ==>
           idx[j] < |ss| && ShowsSample(rows[j], ss[idx[j]], timeBits(ts[idx[j]] - ts[0]))
  }

  lemma AdvancingShown(ss: seq<Sample>, ts: seq<nat>, timeBits: nat -> u32)
    requires |ss| == |ts| && forall i :: 0 <= i < |ts| ==> ts[0] <= ts[i]
    ensures ShowsSamples(Rows(T.Advancing(ss, ts), timeBits), ss, ts, timeBits)
  {
    var idx := T.AdvancingByFields(ss, ts);
    RowsShow(T.Advancing(ss, ts), idx, ss, ts, timeBits);
  }

  lemma RowsShow(rs: seq<Record>, idx: seq<nat>, ss: seq<Sample>, ts: seq<nat>, timeBits: nat -> u32)
    requires |ss| == |ts| && forall i :: 0 <= i < |ts| ==> ts[0] <= ts[i]
    requires T.HoldSamples(rs, idx, ss, ts)
    ensures forall j :: 0 <= j < |idx| ==>
              idx[j] < |ss| && ShowsSample(Rows(rs, timeBits)[j], ss[idx[j]], timeBits(ts[idx[j]] - ts[0]))
  {
    forall j | 0 <= j < |idx|
      ensures idx[j] < |ss| && ShowsSample(Rows(rs, timeBits)[j], ss[idx[j]], timeBits(ts[idx[j]] - ts[0]))
    {
      assert T.HoldsSample(rs[j], ss[idx[j]], ts[idx[j]] - ts[0]);
      assert Rows(rs, timeBits)[j] == RowOf(rs[j], timeBits);
    }
  }

  /** The events are exactly those from `b` on, in order of time, each with its three
      leg vectors. */
  ghost predicate ShowsEvents(events: seq<PwmRecord>, b: nat, es: seq<Event>, ts: seq<nat>)
    requires |es| == |ts|
  {
    && Ordered(events, NotLater)
    && exists kept :: T.HoldEvents(kept, b, es, ts) && multiset(events) == multiset(kept)
  }

  /** What the reader finds: the advancing samples at their true distances from the
      first, and the events from the first sample on. */
  ghost predicate ReadsTrue(data: seq<byte>, meta: seq<byte>, ss: seq<Sample>, sampleTimes: seq<nat>,
                            events: seq<Event>, eventTimes: seq<nat>, timeBits: nat -> u32)
    requires |ss| == |sampleTimes| > 0 && |events| == |eventTimes|
    requires forall i :: 0 <= i < |sampleTimes| ==> sampleTimes[0] <= sampleTimes[i]
  {
    match L.Parse(data)
    case Err(_) => false
    case Ok(p) =>
      && p.meta == meta && ShowsSamples(p.rows, ss, sampleTimes, timeBits)
      && ShowsEvents(p.events, sampleTimes[0], events, eventTimes)
  }

  /** From the true times of a whole run to the file and back. Whatever arrives of
      older epochs, however the streams interleave and however often the counters
      wrap, the sealed file reads as the newest epoch's samples and events at their
      true distances, if no event lies between the base and its shifted place. */
  lemma SealedRunIsTrue(xs: seq<Arrival>, es: seq<nat>, epoch: u16, sampleTimes: seq<nat>, eventTimes: seq<nat>,
                        meta: seq<byte>, timeBits: nat -> u32)
    requires TrueEpochs(xs, es) && xs != [] && |meta| < WORD && |Run(xs).records| < WORD
    requires var kept := Of(xs, es, Newest(es));
      && T.SamplesOf(kept) != [] && T.SampledAt(T.SamplesOf(kept), sampleTimes, epoch) && T.Paced(sampleTimes)
      && T.SeenAt(T.EventsOf(kept), eventTimes) && T.Paced(eventTimes) && |eventTimes| <= MAX_PWM_EVENTS
      && T.KeptRightly(sampleTimes[0], eventTimes)
    ensures forall i :: 0 <= i < |sampleTimes| ==> sampleTimes[0] <= sampleTimes[i]
    ensures var kept := Of(xs, es, Newest(es));
            ReadsTrue(Sealed(meta, Run(xs), timeBits), meta, T.SamplesOf(kept), sampleTimes,
                      T.EventsOf(kept), eventTimes, timeBits)
  {
    var kept := Of(xs, es, Newest(es));
    OfIsOneEpoch(xs, es, Newest(es));
    SamplesAreOfEpoch(kept, Newest(es) % EPOCHS);
    assert T.SamplesOf(kept)[0] in T.SamplesOf(kept);
    T.CaptureExact(kept, epoch, sampleTimes, eventTimes);
    SealedRun(xs, es, meta, timeBits);
    SortIsStable(Run(kept).pwm.records);
    AdvancingShown(T.SamplesOf(kept), sampleTimes, timeBits);
    T.PacedRises(eventTimes);
    T.FromBaseByFields(sampleTimes[0], T.EventsOf(kept), eventTimes);
  }
}
