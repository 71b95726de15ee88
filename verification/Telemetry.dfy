/** The sender of the telemetry link (telemetry.c): samples are collected in a
    static buffer and every 32nd push emits one datagram. */
module Telemetry {
  import opened Bytes
  import opened Frame
  import opened Wrappers
  import Crc

  const BURST := 32
  const FRAME_LENGTH := HEADER_SIZE + BURST * SAMPLE_BYTES + 2

  /** One call of the push routine: a sample and the status flags. */
  datatype Entry = Entry(sample: Sample, flags: byte)

  function Samples(ps: seq<Entry>): (ss: seq<Sample>)
    ensures |ss| == |ps| && forall i :: 0 <= i < |ps| ==> ss[i] == ps[i].sample
  {
    seq(|ps|, i requires 0 <= i < |ps| => ps[i].sample)
  }

  /** The frame that the k-th full burst of a history stands for. */
  function BurstFrame(history: seq<Entry>, k: nat): Frame
    requires BURST * (k + 1) <= |history|
  {
    var burst := history[BURST * k..BURST * (k + 1)];
    Frame(k % 0x1_0000_0000, burst[BURST - 1].flags, Samples(burst))
  }

  /** The datagrams emitted so far are the full bursts of the history. */
  predicate Emitted(sent: seq<seq<byte>>, history: seq<Entry>) {
    && |sent| == |history| / BURST
    && forall k :: 0 <= k < |sent| ==> SentAs(sent[k], history, k)
  }

  predicate SentAs(d: seq<byte>, history: seq<Entry>, k: nat)
    requires BURST * (k + 1) <= |history|
  {
    |d| == FRAME_LENGTH && IsDatagram(d, BurstFrame(history, k))
  }

  /** A 32-bit counter after one more event, if it happened. */
  function Counted(count: u32, happened: bool): u32 {
    if happened then (count + 1) % 0x1_0000_0000 else count
  }

  /** The two counters tell, together, how many datagrams were emitted. */
  predicate CountsAll(taken: u32, failed: u32, emitted: nat) {
    (taken + failed) % 0x1_0000_0000 == emitted % 0x1_0000_0000
  }

  class Sender {
    var open: bool
    var seqNo: u32
    var burst: array<Sample>
    var burstIdx: nat
    var lastFlags: byte
    var packetsSent: u32
    var sendErrors: u32
    const frame: array<byte>
    /** What was handed to the socket, datagram by datagram. */
    var sent: seq<seq<byte>>
    /** Every push accepted since initialisation. */
    ghost var history: seq<Entry>

    ghost predicate Valid()
      reads this, burst
    {
      && burst.Length == BURST && frame.Length == FRAME_LENGTH
      && burstIdx == |history| % BURST
      && seqNo == |history| / BURST % 0x1_0000_0000
      && CountsAll(packetsSent, sendErrors, |sent|)
      && burst[..burstIdx] == Samples(history)[|history| - burstIdx..]
      && Emitted(sent, history)
    }

    /** Initialisation once the socket is bound. */
    constructor ()
      ensures Valid() && open && history == [] && sent == []
      ensures fresh(burst) && fresh(frame)
    {
      burst := new Sample[BURST];
      frame := new byte[FRAME_LENGTH];
      open, seqNo, burstIdx, lastFlags := true, 0, 0, 0;
      packetsSent, sendErrors := 0, 0;
      sent, history := [], [];
    }

    /** Lays out the datagram in the static buffer. */
    method BuildFrame(ghost f: Frame)
      requires burst.Length == BURST && frame.Length == FRAME_LENGTH
      requires f == Frame(seqNo, lastFlags, burst[..])
      modifies frame
      ensures IsDatagram(frame[..], f)
    {
      ghost var header := SYNC + LE32(seqNo) + [lastFlags, BURST];
      PutHeader();
      var pos := HEADER_SIZE;
      for i := 0 to BURST
        invariant pos == HEADER_SIZE + SAMPLE_BYTES * i
        invariant frame[..pos] == header + EncodeSamples(burst[..i])
      {
        PutSample(pos, burst[i]);
        EncodeOneMore(burst[..], i, header);
        pos := pos + SAMPLE_BYTES;
      }
      assert burst[..BURST] == burst[..];
      var crc := Crc.CRC16(frame[..pos]);
      PutCrc(pos, crc, f);
    }

    method PutHeader()
      requires frame.Length == FRAME_LENGTH
      modifies frame
      ensures frame[..HEADER_SIZE] == SYNC + LE32(seqNo) + [lastFlags, BURST]
    {
      frame[0], frame[1], frame[2], frame[3] := 0x48, 0x49, 0x4C, 0x5A;
      assert frame[..4] == SYNC;
      Put32(4, seqNo);
      frame[8], frame[9] := lastFlags, BURST;
      assert frame[..10] == frame[..8] + [lastFlags, BURST];
    }

    method PutCrc(pos: nat, crc: bv16, ghost f: Frame)
      requires frame.Length == FRAME_LENGTH && pos == FRAME_LENGTH - 2 && |f.samples| == BURST
      requires frame[..pos] == Payload(f) && Crc.Rep(crc, Crc.Checksum(Payload(f)))
      modifies frame
      ensures IsDatagram(frame[..], f)
    {
      ghost var laid := frame[..pos];
      frame[pos], frame[pos + 1] := Crc.Split(crc, Crc.Checksum(Payload(f)));
      assert frame[..][..pos] == laid;
    }

    /** Copies one sample to the end of what is laid out, field by field. */
    method PutSample(at: nat, s: Sample)
      requires frame.Length == FRAME_LENGTH && at + SAMPLE_BYTES <= frame.Length
      modifies frame
      ensures frame[..at + SAMPLE_BYTES] == old(frame[..at]) + EncodeSample(s)
    {
      ghost var p := frame[..at];
      var pos := at;
      Put32(pos, s.tCycles);
      pos := pos + 4;
      Put16(pos, s.epoch);
      pos := pos + 2;
      ghost var e0 := LE32(s.tCycles) + LE16(s.epoch);
      assert frame[..pos] == p + e0;
      pos := PutField(pos, s.ia, p, e0);
      ghost var e1 := e0 + LE32(s.ia);
      pos := PutField(pos, s.ib, p, e1);
      ghost var e2 := e1 + LE32(s.ib);
      pos := PutField(pos, s.fluxA, p, e2);
      ghost var e3 := e2 + LE32(s.fluxA);
      pos := PutField(pos, s.fluxB, p, e3);
      ghost var e4 := e3 + LE32(s.fluxB);
      pos := PutField(pos, s.speed, p, e4);
    }

    method PutField(pos: nat, w: u32, ghost p: seq<byte>, ghost e: seq<byte>) returns (next: nat)
      requires pos + 4 <= frame.Length && frame[..pos] == p + e
      modifies frame
      ensures next == pos + 4 && frame[..next] == p + (e + LE32(w))
    {
      Put32(pos, w);
      assert (p + e) + LE32(w) == p + (e + LE32(w));
      next := pos + 4;
    }

    method Put16(pos: nat, w: u16)
      requires pos + 2 <= frame.Length
      modifies frame
      ensures frame[..pos + 2] == old(frame[..pos]) + LE16(w)
    {
      frame[pos], frame[pos + 1] := w % 0x100, w / 0x100;
    }

    method Put32(pos: nat, w: u32)
      requires pos + 4 <= frame.Length
      modifies frame
      ensures frame[..pos + 4] == old(frame[..pos]) + LE32(w)
    {
      frame[pos], frame[pos + 1] := w % 0x100, w / 0x100 % 0x100;
      frame[pos + 2], frame[pos + 3] := w / 0x100 / 0x100 % 0x100, w / 0x100 / 0x100 / 0x100;
    }

    /** Puts one entry into the burst. */
    method Collect(s: Sample, flags: byte)
      requires Valid()
      modifies `lastFlags, `burstIdx, `history, burst
      ensures history == old(history) + [Entry(s, flags)] && lastFlags == flags
      ensures burstIdx == old(burstIdx) + 1 <= burst.Length
      ensures burst[..burstIdx] == Samples(history)[|history| - burstIdx..]
      ensures burstIdx < BURST ==> Valid()
      ensures forall i :: 0 <= i < |sent| ==> BURST * (i + 1) <= |history| && SentAs(sent[i], history, i)
    {
      ghost var before := history;
      lastFlags := flags;
      burst[burstIdx] := s;
      burstIdx := burstIdx + 1;
      history := history + [Entry(s, flags)];
      EmittedStays(sent, before, history);
      if burstIdx < BURST { StillPending(|before|); }
      assert burst[..burstIdx] == old(burst[..burstIdx]) + [s];
      PendingOneMore(before, Entry(s, flags), burstIdx - 1);
    }

    /** `delivered` tells whether the socket took the whole datagram. */
    method Push(s: Sample, flags: byte, delivered: bool)
      requires Valid()
      modifies this, burst, frame
      ensures Valid() && burst == old(burst) && open == old(open)
      ensures history == if open then old(history) + [Entry(s, flags)] else old(history)
      ensures sent[..|old(sent)|] == old(sent)
      ensures packetsSent == Counted(old(packetsSent), |sent| > |old(sent)| && delivered)
      ensures sendErrors == Counted(old(sendErrors), |sent| > |old(sent)| && !delivered)
    {
      if !open { return; }
      Collect(s, flags);
      if burstIdx < BURST {
        return;
      }
      Send(delivered, |sent|);
    }

    /** Emits the burst that has just become full. */
    method Send(delivered: bool, ghost k: nat)
      requires burst.Length == BURST && frame.Length == FRAME_LENGTH && burstIdx == BURST
      requires |history| == BURST * (k + 1) && |sent| == k && seqNo == k % 0x1_0000_0000
      requires lastFlags == history[|history| - 1].flags && CountsAll(packetsSent, sendErrors, k)
      requires burst[..] == Samples(history)[BURST * k..]
      requires forall i :: 0 <= i < |sent| ==> SentAs(sent[i], history, i)
      modifies this, frame
      ensures Valid() && burst == old(burst) && open == old(open) && history == old(history)
      ensures |sent| == k + 1 && sent[..k] == old(sent)
      ensures packetsSent == Counted(old(packetsSent), |sent| > |old(sent)| && delivered)
      ensures sendErrors == Counted(old(sendErrors), |sent| > |old(sent)| && !delivered)
    {
      PendingIsBurst(history, k);
      BuildFrame(BurstFrame(history, k));
      assert SentAs(frame[..], history, k);
      EmittedOneMore(sent, history, frame[..]);
      seqNo := (seqNo + 1) % 0x1_0000_0000;
      sent := sent + [frame[..]];
      if delivered {
        packetsSent := (packetsSent + 1) % 0x1_0000_0000;
      } else {
        sendErrors := (sendErrors + 1) % 0x1_0000_0000;
      }
      burstIdx := 0;
      NextSequenceNumber(k);
      CountOneMore(old(packetsSent), old(sendErrors), k);
      assert Samples(history)[|history|..] == [];
    }
  }

  lemma NextSequenceNumber(k: nat)
    ensures (k % 0x1_0000_0000 + 1) % 0x1_0000_0000 == (k + 1) % 0x1_0000_0000
    ensures BURST * (k + 1) / BURST == k + 1 && BURST * (k + 1) % BURST == 0
  {}

  lemma StillPending(n: nat)
    requires n % BURST + 1 < BURST
    ensures (n + 1) % BURST == n % BURST + 1 && (n + 1) / BURST == n / BURST
  {}

  lemma RegisterPlus(a: nat, b: nat)
    ensures (a % 0x1_0000_0000 + b) % 0x1_0000_0000 == (a + b) % 0x1_0000_0000
  {}

  lemma CountOneMore(taken: u32, failed: u32, k: nat)
    requires CountsAll(taken, failed, k)
    ensures CountsAll((taken + 1) % 0x1_0000_0000, failed, k + 1)
    ensures CountsAll(taken, (failed + 1) % 0x1_0000_0000, k + 1)
  {
    RegisterPlus(taken + 1, failed);
    RegisterPlus(failed + 1, taken);
    RegisterPlus(taken + failed, 1);
    RegisterPlus(k, 1);
  }

  lemma EmittedOneMore(sent: seq<seq<byte>>, history: seq<Entry>, d: seq<byte>)
    requires |history| == BURST * (|sent| + 1)
    requires forall k :: 0 <= k < |sent| ==> SentAs(sent[k], history, k)
    requires SentAs(d, history, |sent|)
    ensures Emitted(sent + [d], history)
  {}

  lemma PendingOneMore(h: seq<Entry>, e: Entry, n: nat)
    requires n <= |h|
    ensures Samples(h + [e])[|h| - n..] == Samples(h)[|h| - n..] + [e.sample]
  {}

  lemma PendingIsBurst(h: seq<Entry>, k: nat)
    requires |h| == BURST * (k + 1)
    ensures BurstFrame(h, k) == Frame(k % 0x1_0000_0000, h[|h| - 1].flags, Samples(h)[BURST * k..])
  {}

  lemma EncodeOneMore(ss: seq<Sample>, i: nat, header: seq<byte>)
    requires i < |ss|
    ensures header + EncodeSamples(ss[..i]) + EncodeSample(ss[i])
         == header + EncodeSamples(ss[..i + 1])
  {
    assert ss[..i + 1][..i] == ss[..i];
    assert EncodeSamples(ss[..i + 1]) == EncodeSamples(ss[..i]) + EncodeSample(ss[i]);
    var e := EncodeSamples(ss[..i]);
    assert header + e + EncodeSample(ss[i]) == header + (e + EncodeSample(ss[i]));
  }

  lemma EmittedStays(sent: seq<seq<byte>>, before: seq<Entry>, after: seq<Entry>)
    requires Emitted(sent, before) && before <= after
    ensures forall k :: 0 <= k < |sent| ==> SentAs(sent[k], after, k)
  {
    forall k | 0 <= k < |sent|
      ensures SentAs(sent[k], after, k)
    {
      assert SentAs(sent[k], before, k);
      assert before[BURST * k..BURST * (k + 1)] == after[BURST * k..BURST * (k + 1)];
    }
  }

  function DecodeAll(sent: seq<seq<byte>>): (rs: seq<Result<Frame, Error>>)
    ensures |rs| == |sent| && forall k :: 0 <= k < |sent| ==> rs[k] == Parse(sent[k])
  {
    seq(|sent|, k requires 0 <= k < |sent| => Parse(sent[k]))
  }

  /** The samples of the accepted datagrams, in order. */
  function Received(rs: seq<Result<Frame, Error>>): seq<Sample> {
    if rs == [] then []
    else Received(rs[..|rs| - 1])
         + match rs[|rs| - 1] { case Ok(f) => f.samples case Err(_) => [] }
  }

  lemma EachDecodes(d: seq<byte>, history: seq<Entry>, k: nat)
    requires BURST * (k + 1) <= |history| && SentAs(d, history, k)
    ensures Parse(d) == Ok(BurstFrame(history, k))
  {
    DecodeInvertsEncode(d, BurstFrame(history, k));
  }

  lemma AllDecode(sent: seq<seq<byte>>, history: seq<Entry>)
    requires Emitted(sent, history)
    ensures BURST * |sent| <= |history|
    ensures forall k :: 0 <= k < |sent| ==> DecodeAll(sent)[k] == Ok(BurstFrame(history, k))
  {
    forall k | 0 <= k < |sent|
      ensures DecodeAll(sent)[k] == Ok(BurstFrame(history, k))
    {
      EachDecodes(sent[k], history, k);
    }
  }

  /** After any number of pushes, decoding the emitted datagrams in order loses
      and invents nothing: sequence numbers count up from zero, the flags are
      those of the burst's last sample, and the samples are the pushed ones. */
  lemma WireRoundTrip(sent: seq<seq<byte>>, history: seq<Entry>)
    requires Emitted(sent, history)
    ensures var rs := DecodeAll(sent);
      && Received(rs) == Samples(history[..BURST * (|history| / BURST)])
      && forall k :: 0 <= k < |rs| ==>
           && rs[k].Ok?
           && rs[k].value.seqNo == k % 0x1_0000_0000
           && rs[k].value.flags == history[BURST * k + BURST - 1].flags
  {
    AllDecode(sent, history);
    ReceivedSoFar(DecodeAll(sent), history);
    forall k | 0 <= k < |sent|
      ensures BurstTells(BurstFrame(history, k), history[BURST * k + BURST - 1], k)
    {
      BurstFrameTells(history, k);
    }
  }

  /** A frame tells the number of its burst and the flags of its last entry. */
  predicate BurstTells(f: Frame, last: Entry, k: nat) {
    f.seqNo == k % 0x1_0000_0000 && f.flags == last.flags
  }

  lemma BurstFrameTells(history: seq<Entry>, k: nat)
    requires BURST * (k + 1) <= |history|
    ensures BurstTells(BurstFrame(history, k), history[BURST * k + BURST - 1], k)
  {}

  lemma {:induction false} ReceivedSoFar(rs: seq<Result<Frame, Error>>, history: seq<Entry>)
    requires BURST * |rs| <= |history|
    requires forall k :: 0 <= k < |rs| ==> rs[k] == Ok(BurstFrame(history, k))
    ensures Received(rs) == Samples(history[..BURST * |rs|])
    decreases |rs|
  {
    if rs != [] {
      var k := |rs| - 1;
      ReceivedSoFar(rs[..k], history);
      SamplesOfBursts(history, k);
    }
  }

  lemma SamplesOfBursts(history: seq<Entry>, k: nat)
    requires BURST * (k + 1) <= |history|
    ensures Samples(history[..BURST * k]) + BurstFrame(history, k).samples
         == Samples(history[..BURST * (k + 1)])
  {}
}
