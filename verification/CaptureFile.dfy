/** The capture file: its layout, the reader that parses it (hilbin_vs_c.py) and
    the rewriting of its metadata (recorder.go). Metadata is an opaque byte
    string, a stored float an opaque word. */
module CaptureFile {
  import opened Bytes
  import opened Capture
  import Counters
  import opened Wrappers

  const WORD := Counters.WORD
  const FORMAT_VERSION := 2
  const ROW_BYTES := 28
  const EVENT_BYTES := 8
  const PREFIX := 12
  const MAX_META := 0x10_0000

  /** "HILDATA" */
  const MAGIC: seq<byte> := [0x48, 0x49, 0x4C, 0x44, 0x41, 0x54, 0x41]

  /** One stored sample: its time as a 32-bit float word, then its words. */
  datatype Row = Row(time: u32, ia: u32, ib: u32, fluxA: u32, fluxB: u32, speed: u32)

  // ------------------------------------------------------------ layout

  function Align8(n: nat): (a: nat)
    ensures n <= a < n + 8 && a % 8 == 0
  {
    (n + 7) / 8 * 8
  }

  function Zeros(n: nat): (z: seq<byte>)
    ensures |z| == n
  {
    seq(n, _ => 0)
  }

  function Header(version: byte, meta: seq<byte>): (b: seq<byte>)
    ensures |b| == Align8(PREFIX + |meta|)
  {
    MAGIC + [version] + LE32(Counters.Low(|meta|)) + meta + Zeros(Align8(PREFIX + |meta|) - PREFIX - |meta|)
  }

  function EncodeWords(ws: seq<u32>): (b: seq<byte>)
    ensures |b| == 4 * |ws|
  {
    if ws == [] then [] else EncodeWords(ws[..|ws| - 1]) + LE32(ws[|ws| - 1])
  }

  /** The values of a row in the order they are stored, the last one unused. */
  function Values(r: Row): seq<u32> { [r.time, r.ia, r.ib, r.fluxA, r.fluxB, r.speed, 0] }

  function AllValues(rows: seq<Row>): (ws: seq<u32>)
    ensures |ws| == 7 * |rows|
  {
    if rows == [] then [] else AllValues(rows[..|rows| - 1]) + Values(rows[|rows| - 1])
  }

  function EncodeRows(rows: seq<Row>): (b: seq<byte>)
    ensures |b| == ROW_BYTES * |rows|
  {
    EncodeWords(AllValues(rows))
  }

  function EncodeEvent(e: PwmRecord): (b: seq<byte>)
    ensures |b| == EVENT_BYTES
  {
    LE32(e.cycles) + [e.a, e.b, e.c, 0]
  }

  function EncodeEvents(es: seq<PwmRecord>): (b: seq<byte>)
    ensures |b| == EVENT_BYTES * |es|
  {
    if es == [] then [] else EncodeEvents(es[..|es| - 1]) + EncodeEvent(es[|es| - 1])
  }

  function Body(rows: seq<Row>, events: seq<PwmRecord>): seq<byte> {
    LE32(Counters.Low(|rows|)) + EncodeRows(rows) + LE32(Counters.Low(|events|)) + EncodeEvents(events)
  }

  // ------------------------------------------------------------ reader

  datatype Parsed = Parsed(version: byte, meta: seq<byte>, rows: seq<Row>, events: seq<PwmRecord>)

  datatype Error = BadMagic | Short

  function WordsAt(b: seq<byte>, pos: nat, n: nat): (ws: seq<u32>)
    requires pos + 4 * n <= |b|
    ensures |ws| == n && forall i :: 0 <= i < n ==> ws[i] == U32At(b, pos + 4 * i)
  {
    seq(n, i requires 0 <= i < n => U32At(b, pos + 4 * i))
  }

  /** Words taken in groups of seven. */
  function RowsOf(ws: seq<u32>, n: nat): (rows: seq<Row>)
    requires |ws| == 7 * n
    ensures |rows| == n
  {
    seq(n, i requires 0 <= i < n =>
      Row(ws[7 * i], ws[7 * i + 1], ws[7 * i + 2], ws[7 * i + 3], ws[7 * i + 4], ws[7 * i + 5]))
  }

  function EventAt(b: seq<byte>, pos: nat): PwmRecord
    requires pos + EVENT_BYTES <= |b|
  {
    PwmRecord(U32At(b, pos), b[pos + 4], b[pos + 5], b[pos + 6])
  }

  function EventsAt(b: seq<byte>, pos: nat, n: nat): (es: seq<PwmRecord>)
    requires pos + EVENT_BYTES * n <= |b|
    ensures |es| == n && forall i :: 0 <= i < n ==> es[i] == EventAt(b, pos + EVENT_BYTES * i)
  {
    seq(n, i requires 0 <= i < n => EventAt(b, pos + EVENT_BYTES * i))
  }

  /** Everything behind the header. */
  function ParseBody(b: seq<byte>): Result<(seq<Row>, seq<PwmRecord>), Error> {
    if |b| < 4 then Err(Short)
    else
      var n := U32At(b, 0);
      var at := 4 + ROW_BYTES * n;
      if |b| < at + 4 then Err(Short)
      else
        var k := U32At(b, at);
        if |b| < at + 4 + EVENT_BYTES * k then Err(Short)
        else Ok((RowsOf(WordsAt(b, 4, 7 * n), n), EventsAt(b, at + 4, k)))
  }

  function Parse(data: seq<byte>): Result<Parsed, Error> {
    if |data| < 7 || data[..7] != MAGIC then Err(BadMagic)
    else if |data| < PREFIX then Err(Short)
    else
      var m := U32At(data, 8);
      var pos := Align8(PREFIX + m);
      if |data| < pos then Err(Short)
      else match ParseBody(data[pos..])
        case Err(e) => Err(e)
        case Ok((rows, events)) => Ok(Parsed(data[7], data[PREFIX..PREFIX + m], rows, events))
  }

  // ------------------------------------------------------------ round trip

  lemma {:induction false} WordsRoundTrip(b: seq<byte>, pos: nat, ws: seq<u32>)
    requires pos + 4 * |ws| <= |b| && b[pos..pos + 4 * |ws|] == EncodeWords(ws)
    ensures WordsAt(b, pos, |ws|) == ws
  {
    if ws != [] {
      var k := |ws| - 1;
      var mid := pos + 4 * k;
      SliceByHalves(b, pos, mid, mid + 4, EncodeWords(ws[..k]), LE32(ws[k]));
      WordsRoundTrip(b, pos, ws[..k]);
      WordReads(b, mid, ws[k]);
      assert WordsAt(b, pos, |ws|) == WordsAt(b, pos, k) + [ws[k]];
    }
  }

  lemma {:induction false} ValuesOf(rows: seq<Row>, i: nat)
    requires i < |rows|
    ensures forall j :: 0 <= j < 7 ==> AllValues(rows)[7 * i + j] == Values(rows[i])[j]
  {
    var k := |rows| - 1;
    if i < k {
      ValuesOf(rows[..k], i);
    }
  }

  lemma RowRoundTrip(rows: seq<Row>, i: nat)
    requires i < |rows|
    ensures RowsOf(AllValues(rows), |rows|)[i] == rows[i]
  {
    ValuesOf(rows, i);
    var ws, vs := AllValues(rows), Values(rows[i]);
    assert ws[7 * i + 0] == vs[0] && ws[7 * i + 1] == vs[1] && ws[7 * i + 2] == vs[2];
    assert ws[7 * i + 3] == vs[3] && ws[7 * i + 4] == vs[4] && ws[7 * i + 5] == vs[5];
  }

  lemma RowsRoundTrip(rows: seq<Row>)
    ensures RowsOf(AllValues(rows), |rows|) == rows
  {
    forall i | 0 <= i < |rows|
      ensures RowsOf(AllValues(rows), |rows|)[i] == rows[i]
    {
      RowRoundTrip(rows, i);
    }
  }

  lemma EventRoundTrip(b: seq<byte>, pos: nat, e: PwmRecord)
    requires pos + EVENT_BYTES <= |b| && b[pos..pos + EVENT_BYTES] == EncodeEvent(e)
    ensures EventAt(b, pos) == e
  {
    var c := b[pos..pos + EVENT_BYTES];
    LE32RoundTrip(b, pos, e.cycles);
    assert c[..4] == b[pos..pos + 4] && EncodeEvent(e)[..4] == LE32(e.cycles);
    assert c[4] == e.a && c[5] == e.b && c[6] == e.c;
  }

  ghost predicate EventsRead(b: seq<byte>, pos: nat, es: seq<PwmRecord>)
    requires pos + EVENT_BYTES * |es| <= |b|
  {
    forall i :: 0 <= i < |es| ==> EventAt(b, pos + EVENT_BYTES * i) == es[i]
  }

  lemma LastEventApart(b: seq<byte>, pos: nat, es: seq<PwmRecord>)
    requires es != [] && pos + EVENT_BYTES * |es| <= |b|
    requires var k := |es| - 1;
             EventsRead(b, pos, es[..k]) && EventAt(b, pos + EVENT_BYTES * k) == es[k]
    ensures EventsRead(b, pos, es)
  {
    assert forall i :: 0 <= i < |es| - 1 ==> es[..|es| - 1][i] == es[i];
  }

  lemma SliceByHalves(b: seq<byte>, pos: nat, mid: nat, end: nat, x: seq<byte>, y: seq<byte>)
    requires pos <= mid <= end <= |b| && |x| == mid - pos && b[pos..end] == x + y
    ensures b[pos..mid] == x && b[mid..end] == y
  {
    var c := b[pos..end];
    assert c[..mid - pos] == b[pos..mid] && c[mid - pos..] == b[mid..end];
  }

  lemma {:induction false} EventsRoundTrip(b: seq<byte>, pos: nat, es: seq<PwmRecord>)
    requires pos + EVENT_BYTES * |es| <= |b|
    requires b[pos..pos + EVENT_BYTES * |es|] == EncodeEvents(es)
    ensures EventsRead(b, pos, es)
    decreases |es|
  {
    if es != [] {
      var k := |es| - 1;
      var mid := pos + EVENT_BYTES * k;
      SliceByHalves(b, pos, mid, mid + EVENT_BYTES, EncodeEvents(es[..k]), EncodeEvent(es[k]));
      EventsRoundTrip(b, pos, es[..k]);
      EventRoundTrip(b, mid, es[k]);
      LastEventApart(b, pos, es);
    }
  }

  /** `b` is the body of these rows and events. */
  ghost predicate HasBody(b: seq<byte>, rows: seq<Row>, events: seq<PwmRecord>) {
    var at := 4 + ROW_BYTES * |rows|;
    && |b| == at + 4 + EVENT_BYTES * |events|
    && U32At(b, 0) == Counters.Low(|rows|) && b[4..at] == EncodeRows(rows)
    && U32At(b, at) == Counters.Low(|events|) && b[at + 4..|b|] == EncodeEvents(events)
  }

  lemma WordReads(b: seq<byte>, pos: nat, w: u32)
    requires pos + 4 <= |b| && b[pos..pos + 4] == LE32(w)
    ensures U32At(b, pos) == w
  {
    LE32RoundTrip(b, pos, w);
  }

  lemma PartsInOrder(w0: seq<byte>, rows: seq<byte>, w1: seq<byte>, events: seq<byte>)
    requires |w0| == |w1| == 4
    ensures var b, at := w0 + rows + w1 + events, 4 + |rows|;
      && b[0..4] == w0 && b[4..at] == rows && b[at..at + 4] == w1 && b[at + 4..|b|] == events
  {}

  lemma HasBodyParts(b: seq<byte>, at: nat, rows: seq<Row>, events: seq<PwmRecord>)
    requires at == 4 + ROW_BYTES * |rows| && |b| == at + 4 + EVENT_BYTES * |events|
    requires b[0..4] == LE32(Counters.Low(|rows|)) && b[4..at] == EncodeRows(rows)
    requires b[at..at + 4] == LE32(Counters.Low(|events|)) && b[at + 4..|b|] == EncodeEvents(events)
    ensures HasBody(b, rows, events)
  {
    WordReads(b, 0, Counters.Low(|rows|));
    WordReads(b, at, Counters.Low(|events|));
  }

  lemma BodyParts(rows: seq<Row>, events: seq<PwmRecord>)
    ensures HasBody(Body(rows, events), rows, events)
  {
    var n, k := Counters.Low(|rows|), Counters.Low(|events|);
    PartsInOrder(LE32(n), EncodeRows(rows), LE32(k), EncodeEvents(events));
    HasBodyParts(Body(rows, events), 4 + ROW_BYTES * |rows|, rows, events);
  }

  lemma RowsReadBack(b: seq<byte>, pos: nat, rows: seq<Row>)
    requires pos + ROW_BYTES * |rows| <= |b|
    requires b[pos..pos + ROW_BYTES * |rows|] == EncodeRows(rows)
    ensures RowsOf(WordsAt(b, pos, 7 * |rows|), |rows|) == rows
  {
    WordsRoundTrip(b, pos, AllValues(rows));
    RowsRoundTrip(rows);
  }

  lemma EventsReadBack(b: seq<byte>, pos: nat, es: seq<PwmRecord>)
    requires pos + EVENT_BYTES * |es| <= |b|
    requires b[pos..pos + EVENT_BYTES * |es|] == EncodeEvents(es)
    ensures EventsAt(b, pos, |es|) == es
  {
    EventsRoundTrip(b, pos, es);
  }

  lemma ItemsReadBack(b: seq<byte>, rows: seq<Row>, events: seq<PwmRecord>)
    requires HasBody(b, rows, events)
    ensures RowsOf(WordsAt(b, 4, 7 * |rows|), |rows|) == rows
    ensures EventsAt(b, 4 + ROW_BYTES * |rows| + 4, |events|) == events
  {
    RowsReadBack(b, 4, rows);
    EventsReadBack(b, 4 + ROW_BYTES * |rows| + 4, events);
  }

  /** A body reads back as what it was made of. */
  lemma BodyRoundTrip(b: seq<byte>, rows: seq<Row>, events: seq<PwmRecord>)
    requires HasBody(b, rows, events) && |rows| < WORD && |events| < WORD
    ensures ParseBody(b) == Ok((rows, events))
  {
    var n, k := |rows|, |events|;
    ItemsReadBack(b, rows, events);
    ParsesByCounts(b, n, k);
  }

  lemma ParsesByCounts(b: seq<byte>, n: nat, k: nat)
    requires |b| == 4 + ROW_BYTES * n + 4 + EVENT_BYTES * k
    requires U32At(b, 0) == n && U32At(b, 4 + ROW_BYTES * n) == k
    ensures ParseBody(b) == Ok((RowsOf(WordsAt(b, 4, 7 * n), n), EventsAt(b, 4 + ROW_BYTES * n + 4, k)))
  {}

  ghost predicate HasHeader(data: seq<byte>, version: byte, meta: seq<byte>, rest: seq<byte>) {
    var pos := Align8(PREFIX + |meta|);
    && |data| >= pos && data[..7] == MAGIC && data[7] == version
    && U32At(data, 8) == Counters.Low(|meta|) && data[PREFIX..PREFIX + |meta|] == meta
    && data[pos..] == rest
  }

  lemma HeaderParts(version: byte, meta: seq<byte>, rest: seq<byte>)
    ensures HasHeader(Header(version, meta) + rest, version, meta, rest)
  {
    var data := Header(version, meta) + rest;
    assert data[8..12] == LE32(Counters.Low(|meta|));
    WordReads(data, 8, Counters.Low(|meta|));
  }

  /** Behind a whole header the reader parses the body. */
  lemma HeaderRoundTrip(data: seq<byte>, version: byte, meta: seq<byte>, rest: seq<byte>)
    requires |meta| < WORD && HasHeader(data, version, meta, rest)
    ensures Parse(data)
         == match ParseBody(rest)
            case Err(e) => Err(e)
            case Ok((rows, events)) => Ok(Parsed(version, meta, rows, events))
  {
    ParsesByLength(data, |meta|);
  }

  lemma ParsesByLength(data: seq<byte>, m: nat)
    requires Align8(PREFIX + m) <= |data| && data[..7] == MAGIC && U32At(data, 8) == m
    ensures Parse(data)
         == match ParseBody(data[Align8(PREFIX + m)..])
            case Err(e) => Err(e)
            case Ok((rows, events)) => Ok(Parsed(data[7], data[PREFIX..PREFIX + m], rows, events))
  {}

  /** A file reads back exactly as it was laid out, as long as its sample count
      and the length of its metadata fit their 32-bit fields; and only then. */
  lemma FileRoundTrip(version: byte, meta: seq<byte>, rows: seq<Row>, events: seq<PwmRecord>)
    requires |events| < WORD
    ensures Parse(Header(version, meta) + Body(rows, events)) == Ok(Parsed(version, meta, rows, events))
       <==> |meta| < WORD && |rows| < WORD
  {
    var data := Header(version, meta) + Body(rows, events);
    var p := Parse(data);
    if |meta| >= WORD {
      assert p.Ok? ==> |p.value.meta| < WORD;
    } else {
      HeaderParts(version, meta, Body(rows, events));
      HeaderRoundTrip(data, version, meta, Body(rows, events));
      if |rows| < WORD {
        BodyParts(rows, events);
        BodyRoundTrip(Body(rows, events), rows, events);
      } else {
        assert p.Ok? ==> |p.value.rows| < WORD;
      }
    }
  }

  // ------------------------------------------------------------ metadata

  /** What re-marshalling the metadata with the extra fields gives. */
  datatype Remarshalled = NotJson | Fails | Json(bytes: seq<byte>)

  datatype Merged = Bytes(data: seq<byte>) | Failed | OutOfRange

  /** The conditions under which the header is left alone. */
  predicate LeftAlone(data: seq<byte>, anyExtra: bool) {
    || |data| < PREFIX || data[..7] != MAGIC || !anyExtra
    || U32At(data, 8) == 0 || U32At(data, 8) > MAX_META || PREFIX + U32At(data, 8) > |data|
  }

  /** Rewriting the metadata of a capture. The body starts at the aligned end of
      the old header; a file that ends inside the alignment gap makes the slice
      fall out of range. */
  function MergeMeta(data: seq<byte>, anyExtra: bool, json: Remarshalled): Merged {
    if LeftAlone(data, anyExtra) then Bytes(data)
    else match json
      case NotJson => Bytes(data)
      case Fails => Failed
      case Json(meta) =>
        var at := Align8(PREFIX + U32At(data, 8));
        if at > |data| then OutOfRange
        else Bytes(Header(data[7], meta) + data[at..])
  }

  /** Of a capture laid out in full only missing or oversized metadata is left alone. */
  lemma WholeLeftAloneExactly(version: byte, meta: seq<byte>, rest: seq<byte>, anyExtra: bool)
    requires |meta| < WORD
    ensures LeftAlone(Header(version, meta) + rest, anyExtra) <==> !anyExtra || meta == [] || |meta| > MAX_META
  {
    HeaderParts(version, meta, rest);
    assert |Header(version, meta)| >= PREFIX + |meta|;
  }

  /** A readable capture stays readable, keeps its version, samples and events,
      and shows the new metadata, if the header is rewritten at all. */
  lemma MergeKeepsCapture(data: seq<byte>, anyExtra: bool, json: Remarshalled)
    requires Parse(data).Ok?
    ensures match MergeMeta(data, anyExtra, json)
            case OutOfRange => false
            case Failed => json.Fails?
            case Bytes(out) =>
              if LeftAlone(data, anyExtra) || json.NotJson? then out == data
              else json.Json? && (Parse(out) == Ok(Parse(data).value.(meta := json.bytes)) <==> |json.bytes| < WORD)
  {
    if !LeftAlone(data, anyExtra) && json.Json? {
      var at := Align8(PREFIX + U32At(data, 8));
      if |json.bytes| >= WORD {
        var p := Parse(Header(data[7], json.bytes) + data[at..]);
        assert p.Ok? ==> |p.value.meta| < WORD;
      } else {
        HeaderParts(data[7], json.bytes, data[at..]);
        HeaderRoundTrip(Header(data[7], json.bytes) + data[at..], data[7], json.bytes, data[at..]);
      }
    }
  }

  /** A cut capture keeps the header fields that lie before the cut. */
  lemma CutHeader(version: byte, meta: seq<byte>, rest: seq<byte>, n: nat)
    requires PREFIX <= n <= |Header(version, meta) + rest|
    ensures var data := (Header(version, meta) + rest)[..n];
            data[..7] == MAGIC && U32At(data, 8) == Counters.Low(|meta|)
  {
    var whole := Header(version, meta) + rest;
    HeaderParts(version, meta, rest);
    assert whole[..n][..7] == whole[..7];
    assert whole[..n][8..12] == whole[8..12];
  }

  /** Rewriting the metadata of a capture cut short falls out of range exactly when
      the cut is in the alignment gap behind the old metadata. Cut before it the
      file is left alone. */
  lemma CutMergeExactly(version: byte, meta: seq<byte>, rest: seq<byte>, n: nat, json: seq<byte>)
    requires 0 < |meta| <= MAX_META && n <= |Header(version, meta) + rest|
    ensures var data := (Header(version, meta) + rest)[..n];
      && (MergeMeta(data, true, Json(json)) == OutOfRange
          <==> PREFIX + |meta| <= n < Align8(PREFIX + |meta|))
      && (n < PREFIX + |meta| ==> MergeMeta(data, true, Json(json)) == Bytes(data))
  {
    if n >= PREFIX { CutHeader(version, meta, rest, n); }
  }

  /** There is such a cut: one byte of metadata, and nothing behind it. */
  lemma CutInGapFails(version: byte, rest: seq<byte>, json: seq<byte>)
    ensures |Header(version, [0])| == 16
    ensures MergeMeta((Header(version, [0]) + rest)[..13], true, Json(json)) == OutOfRange
  {
    CutMergeExactly(version, [0], rest, 13, json);
  }
}
