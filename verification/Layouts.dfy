/** Where every byte is: the datagram and the capture file by absolute positions, as
    a second implementation would have to read them. */
module Layouts {
  import opened Bytes
  import F = Frame
  import C = Capture
  import L = CaptureFile
  import N = Counters
  import opened Wrappers
  import Crc

  /** Words are little-endian. */
  lemma WordOfBytes(b: seq<byte>, pos: nat)
    requires pos + 4 <= |b|
    ensures var b0: int, b1: int, b2: int, b3: int := b[pos], b[pos + 1], b[pos + 2], b[pos + 3];
      && U32At(b, pos) == b0 + 0x100 * b1 + 0x1_0000 * b2 + 0x100_0000 * b3
      && U16At(b, pos) == b0 + 0x100 * b1
  {}

  // ------------------------------------------------------------ the datagram

  /** A sample as it lies in a datagram: 26 bytes, the time stamp first. */
  ghost predicate SampleLiesAt(b: seq<byte>, pos: nat, s: F.Sample)
    requires pos + 26 <= |b|
  {
    && U32At(b, pos) == s.tCycles && U16At(b, pos + 4) == s.epoch
    && U32At(b, pos + 6) == s.ia && U32At(b, pos + 10) == s.ib
    && U32At(b, pos + 14) == s.fluxA && U32At(b, pos + 18) == s.fluxB && U32At(b, pos + 22) == s.speed
  }

  /** A well-formed datagram: the letters HILZ, sequence number, flags, count, and the
      samples one after the other. */
  lemma DatagramLayout(buf: seq<byte>, f: F.Frame)
    requires F.IsDatagram(buf, f)
    ensures |buf| >= 12 + 26 * |f.samples| && 1 <= |f.samples| <= 32
    ensures buf[0] == 0x48 && buf[1] == 0x49 && buf[2] == 0x4C && buf[3] == 0x5A
    ensures U32At(buf, 4) == f.seqNo && buf[8] == f.flags && buf[9] == |f.samples|
    ensures forall i :: 0 <= i < |f.samples| ==> SampleLiesAt(buf, 10 + 26 * i, f.samples[i])
  {
    F.PayloadRoundTrip(buf, f);
    F.SyncByBytes(buf);
    forall i | 0 <= i < |f.samples|
      ensures SampleLiesAt(buf, 10 + 26 * i, f.samples[i])
    {
      assert f.samples[i] == F.SamplesAt(buf, |f.samples|)[i] == F.SampleAt(buf, 10 + 26 * i);
    }
  }

  ghost predicate Foreign(buf: seq<byte>)
    requires |buf| >= 38
  {
    !(buf[0] == 0x48 && buf[1] == 0x49 && buf[2] == 0x4C && buf[3] == 0x5A)
  }

  /** The bytes a datagram's checksum covers, by its own count. */
  function Covered(buf: seq<byte>): int
    requires |buf| >= 38
  {
    10 + 26 * buf[9] as int
  }

  ghost predicate Miscounted(buf: seq<byte>)
    requires |buf| >= 38
  {
    !(1 <= buf[9] <= 32 && |buf| >= Covered(buf) + 2)
  }

  /** Which datagrams are refused, and for what: too short for one sample, the wrong
      letters, a count that is not 1 to 32 or more than the buffer holds, and only
      then a checksum that does not fit. */
  lemma RefusedExactly(buf: seq<byte>)
    ensures F.Parse(buf) == Err(F.InvalidSync) <==> |buf| >= 38 && Foreign(buf)
    ensures F.Parse(buf) == Err(F.Truncated) <==> |buf| < 38 || (!Foreign(buf) && Miscounted(buf))
    ensures F.Parse(buf) == Err(F.BadCrc) <==>
            && |buf| >= 38 && !Foreign(buf) && !Miscounted(buf)
            && var end := Covered(buf);
               !Crc.Carries(buf[end], buf[end + 1], Crc.Checksum(buf[..end]))
  {
    if |buf| >= 38 { F.SyncByBytes(buf); }
  }

  // ------------------------------------------------------------ the capture file

  /** The six words of a row. */
  ghost predicate RowReadAt(b: seq<byte>, pos: nat, r: L.Row)
    requires pos + 28 <= |b|
  {
    && U32At(b, pos) == r.time && U32At(b, pos + 4) == r.ia && U32At(b, pos + 8) == r.ib
    && U32At(b, pos + 12) == r.fluxA && U32At(b, pos + 16) == r.fluxB && U32At(b, pos + 20) == r.speed
  }

  ghost predicate EventReadAt(b: seq<byte>, pos: nat, e: C.PwmRecord)
    requires pos + 8 <= |b|
  {
    U32At(b, pos) == e.cycles && b[pos + 4] == e.a && b[pos + 5] == e.b && b[pos + 6] == e.c
  }

  /** A row as it lies in a file: seven words, the last one unused. */
  ghost predicate RowLiesAt(b: seq<byte>, pos: nat, r: L.Row)
    requires pos + 28 <= |b|
  {
    RowReadAt(b, pos, r) && U32At(b, pos + 24) == 0
  }

  /** An event: its cycles, the three leg vectors, and a zero byte. */
  ghost predicate EventLiesAt(b: seq<byte>, pos: nat, e: C.PwmRecord)
    requires pos + 8 <= |b|
  {
    EventReadAt(b, pos, e) && b[pos + 7] == 0
  }

  lemma RowsLie(b: seq<byte>, pos: nat, rows: seq<L.Row>)
    requires pos + 28 * |rows| <= |b| && b[pos..pos + 28 * |rows|] == L.EncodeRows(rows)
    ensures forall i :: 0 <= i < |rows| ==> RowLiesAt(b, pos + 28 * i, rows[i])
  {
    var ws := L.AllValues(rows);
    L.WordsRoundTrip(b, pos, ws);
    forall i | 0 <= i < |rows|
      ensures RowLiesAt(b, pos + 28 * i, rows[i])
    {
      L.ValuesOf(rows, i);
      forall j | 0 <= j < 7
        ensures U32At(b, pos + 28 * i + 4 * j) == L.Values(rows[i])[j]
      {
        assert L.WordsAt(b, pos, |ws|)[7 * i + j] == ws[7 * i + j];
      }
      SevenWords(b, pos + 28 * i, rows[i]);
    }
  }

  lemma SevenWords(b: seq<byte>, pos: nat, r: L.Row)
    requires pos + 28 <= |b| && forall j :: 0 <= j < 7 ==> U32At(b, pos + 4 * j) == L.Values(r)[j]
    ensures RowLiesAt(b, pos, r)
  {
    var vs := L.Values(r);
    assert U32At(b, pos + 4 * 0) == vs[0] && U32At(b, pos + 4 * 1) == vs[1] && U32At(b, pos + 4 * 2) == vs[2];
    assert U32At(b, pos + 4 * 3) == vs[3] && U32At(b, pos + 4 * 4) == vs[4] && U32At(b, pos + 4 * 5) == vs[5];
    assert U32At(b, pos + 4 * 6) == vs[6];
  }

  ghost predicate EventsLieAt(b: seq<byte>, pos: nat, es: seq<C.PwmRecord>)
    requires pos + 8 * |es| <= |b|
  {
    forall k :: 0 <= k < |es| ==> EventLiesAt(b, pos + 8 * k, es[k])
  }

  lemma LastLiesApart(b: seq<byte>, pos: nat, es: seq<C.PwmRecord>, n: nat)
    requires |es| == n + 1 && pos + 8 * |es| <= |b|
    requires EventsLieAt(b, pos, es[..n]) && EventLiesAt(b, pos + 8 * n, es[n])
    ensures EventsLieAt(b, pos, es)
  {
    assert forall k :: 0 <= k < n ==> es[..n][k] == es[k];
  }

  lemma {:induction false} EventsLie(b: seq<byte>, pos: nat, es: seq<C.PwmRecord>)
    requires pos + 8 * |es| <= |b| && b[pos..pos + 8 * |es|] == L.EncodeEvents(es)
    ensures EventsLieAt(b, pos, es)
    decreases |es|
  {
    if es != [] {
      var n := |es| - 1;
      var mid := pos + 8 * n;
      L.SliceByHalves(b, pos, mid, mid + 8, L.EncodeEvents(es[..n]), L.EncodeEvent(es[n]));
      EventsLie(b, pos, es[..n]);
      EventLies(b, mid, es[n]);
      LastLiesApart(b, pos, es, n);
    }
  }

  lemma EventLies(b: seq<byte>, pos: nat, e: C.PwmRecord)
    requires pos + 8 <= |b| && b[pos..pos + 8] == L.EncodeEvent(e)
    ensures EventLiesAt(b, pos, e)
  {
    var c := b[pos..pos + 8];
    L.EventRoundTrip(b, pos, e);
    assert c[4] == b[pos + 4] && c[5] == b[pos + 5] && c[6] == b[pos + 6] && c[7] == b[pos + 7];
  }

  /** The body behind the header: the sample count, the rows, the event count, the
      events. */
  lemma BodyLayout(rows: seq<L.Row>, events: seq<C.PwmRecord>)
    ensures var b, at := L.Body(rows, events), 4 + 28 * |rows|;
      && |b| == at + 4 + 8 * |events|
      && U32At(b, 0) == N.Low(|rows|) && U32At(b, at) == N.Low(|events|)
      && (forall i :: 0 <= i < |rows| ==> RowLiesAt(b, 4 + 28 * i, rows[i]))
      && EventsLieAt(b, at + 4, events)
  {
    L.BodyParts(rows, events);
    var b, at := L.Body(rows, events), 4 + 28 * |rows|;
    RowsLie(b, 4, rows);
    EventsLie(b, at + 4, events);
  }

  /** A file: the letters HILDATA, the version, the length of the metadata, the
      metadata, zeros up to a multiple of eight, and the body. */
  lemma FileLayout(version: byte, meta: seq<byte>, rows: seq<L.Row>, events: seq<C.PwmRecord>)
    ensures var data := L.Header(version, meta) + L.Body(rows, events);
            var at := (12 + |meta| + 7) / 8 * 8;
      && |data| >= at >= 12 + |meta| && at % 8 == 0
      && data[..7] == [0x48, 0x49, 0x4C, 0x44, 0x41, 0x54, 0x41] && data[7] == version
      && U32At(data, 8) == N.Low(|meta|) && data[12..12 + |meta|] == meta
      && (forall k :: 12 + |meta| <= k < at ==> data[k] == 0)
      && data[at..] == L.Body(rows, events)
  {
    L.HeaderParts(version, meta, L.Body(rows, events));
  }

  // ------------------------------------------------------------ what is read

  /** As many rows and events as the counts say are there, from `pos` on. */
  ghost predicate BodyComplete(b: seq<byte>, pos: nat) {
    && |b| >= pos + 4
    && var at := pos + 4 + 28 * U32At(b, pos);
       |b| >= at + 4 && |b| >= at + 4 + 8 * U32At(b, at)
  }

  /** These rows and events are what lies there. */
  ghost predicate BodyReadAt(b: seq<byte>, pos: nat, rows: seq<L.Row>, events: seq<C.PwmRecord>)
    requires BodyComplete(b, pos)
  {
    var at := pos + 4 + 28 * U32At(b, pos);
    && |rows| == U32At(b, pos) && |events| == U32At(b, at)
    && (forall i :: 0 <= i < |rows| ==> RowReadAt(b, pos + 4 + 28 * i, rows[i]))
    && (forall i :: 0 <= i < |events| ==> EventReadAt(b, at + 4 + 8 * i, events[i]))
  }

  lemma BodyReads(b: seq<byte>)
    ensures match L.ParseBody(b)
            case Err(e) => e == L.Short && !BodyComplete(b, 0)
            case Ok((rows, events)) => BodyComplete(b, 0) && BodyReadAt(b, 0, rows, events)
  {
    if BodyComplete(b, 0) {
      var n: nat := U32At(b, 0);
      var ws := L.WordsAt(b, 4, 7 * n);
      forall i | 0 <= i < n
        ensures RowReadAt(b, 4 + 28 * i, L.RowsOf(ws, n)[i])
      {
        assert ws[7 * i + 1] == U32At(b, 4 + 4 * (7 * i + 1)) && ws[7 * i + 2] == U32At(b, 4 + 4 * (7 * i + 2));
        assert ws[7 * i + 3] == U32At(b, 4 + 4 * (7 * i + 3)) && ws[7 * i + 4] == U32At(b, 4 + 4 * (7 * i + 4));
        assert ws[7 * i + 5] == U32At(b, 4 + 4 * (7 * i + 5));
      }
    }
  }

  lemma BehindHeader(data: seq<byte>, pos: nat, rows: seq<L.Row>, events: seq<C.PwmRecord>)
    requires pos <= |data|
    ensures BodyComplete(data[pos..], 0) <==> BodyComplete(data, pos)
    ensures BodyComplete(data, pos) ==>
              (BodyReadAt(data[pos..], 0, rows, events) <==> BodyReadAt(data, pos, rows, events))
  {
    var b := data[pos..];
    forall at | 0 <= at && at + 4 <= |b|
      ensures U32At(b, at) == U32At(data, pos + at)
    {}
    if BodyComplete(data, pos) { SameItems(data, pos, rows, events); }
  }

  lemma SameItems(data: seq<byte>, pos: nat, rows: seq<L.Row>, events: seq<C.PwmRecord>)
    requires pos <= |data|
    ensures forall at, r :: 0 <= at && at + 28 <= |data| - pos ==>
              (RowReadAt(data[pos..], at, r) <==> RowReadAt(data, pos + at, r))
    ensures forall at, e :: 0 <= at && at + 8 <= |data| - pos ==>
              (EventReadAt(data[pos..], at, e) <==> EventReadAt(data, pos + at, e))
  {}

  /** A whole header: the letters HILDATA, and as many bytes of metadata as it says. */
  ghost predicate HeaderComplete(data: seq<byte>) {
    |data| >= 12 && data[..7] == HILDATA && |data| >= (12 + U32At(data, 8) + 7) / 8 * 8
  }

  const HILDATA: seq<byte> := [0x48, 0x49, 0x4C, 0x44, 0x41, 0x54, 0x41]

  /** What the reader makes of any bytes at all: they are refused for their letters
      or for being cut short, or else every word is read from its place. */
  lemma ReadsExactly(data: seq<byte>)
    ensures match L.Parse(data)
            case Err(BadMagic) => |data| < 7 || data[..7] != HILDATA
            case Err(Short) =>
              && |data| >= 7 && data[..7] == HILDATA
              && (HeaderComplete(data) ==> !BodyComplete(data, (12 + U32At(data, 8) + 7) / 8 * 8))
            case Ok(p) =>
              && HeaderComplete(data) && p.version == data[7] && p.meta == data[12..12 + U32At(data, 8)]
              && var pos := (12 + U32At(data, 8) + 7) / 8 * 8;
                 BodyComplete(data, pos) && BodyReadAt(data, pos, p.rows, p.events)
  {
    if HeaderComplete(data) {
      var pos := L.Align8(12 + U32At(data, 8));
      BodyReads(data[pos..]);
      match L.ParseBody(data[pos..]) {
        case Err(_) => BehindHeader(data, pos, [], []);
        case Ok((rows, events)) => BehindHeader(data, pos, rows, events);
      }
    }
  }
}
