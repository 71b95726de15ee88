/** The telemetry datagram: what frame.go accepts. Floats are opaque 32-bit
    words throughout. */
module Frame {
  import opened Bytes
  import opened Wrappers
  import Crc
  import D = CrcDistance

  const HEADER_SIZE := 10
  const SAMPLE_BYTES := 26
  const MAX_BURST := 32

  const SYNC: seq<byte> := [0x48, 0x49, 0x4C, 0x5A]

  datatype Sample = Sample(tCycles: u32, epoch: u16, ia: u32, ib: u32,
                           fluxA: u32, fluxB: u32, speed: u32)

  datatype Frame = Frame(seqNo: u32, flags: byte, samples: seq<Sample>)

  datatype Error = Truncated | InvalidSync | BadCrc

  function EncodeSample(s: Sample): (b: seq<byte>)
    ensures |b| == SAMPLE_BYTES
  {
    LE32(s.tCycles) + LE16(s.epoch)
    + LE32(s.ia) + LE32(s.ib) + LE32(s.fluxA) + LE32(s.fluxB) + LE32(s.speed)
  }

  function EncodeSamples(ss: seq<Sample>): (b: seq<byte>)
    ensures |b| == SAMPLE_BYTES * |ss|
  {
    if ss == [] then []
    else EncodeSamples(ss[..|ss| - 1]) + EncodeSample(ss[|ss| - 1])
  }

  /** Everything the checksum covers. */
  function Payload(f: Frame): (b: seq<byte>)
    requires |f.samples| <= MAX_BURST
    ensures |b| == HEADER_SIZE + SAMPLE_BYTES * |f.samples|
  {
    SYNC + LE32(f.seqNo) + [f.flags, |f.samples|] + EncodeSamples(f.samples)
  }

  /** `buf` starts with a well-formed datagram for `f`. */
  predicate IsDatagram(buf: seq<byte>, f: Frame) {
    && 1 <= |f.samples| <= MAX_BURST
    && var end := HEADER_SIZE + SAMPLE_BYTES * |f.samples|;
    && end + 2 <= |buf|
    && buf[..end] == Payload(f)
    && Crc.Carries(buf[end], buf[end + 1], Crc.Checksum(Payload(f)))
  }

  function SampleAt(b: seq<byte>, pos: nat): Sample
    requires pos + SAMPLE_BYTES <= |b|
  {
    Sample(U32At(b, pos), U16At(b, pos + 4), U32At(b, pos + 6), U32At(b, pos + 10),
           U32At(b, pos + 14), U32At(b, pos + 18), U32At(b, pos + 22))
  }

  /** The outcome of decoding, check by check. */
  function Parse(buf: seq<byte>): Result<Frame, Error> {
    if |buf| < HEADER_SIZE + SAMPLE_BYTES + 2 then Err(Truncated)
    else if buf[..4] != SYNC then Err(InvalidSync)
    else
      var n := buf[9];
      var end := HEADER_SIZE + SAMPLE_BYTES * n;
      if n < 1 || n > MAX_BURST || |buf| < end + 2 then Err(Truncated)
      else if !Crc.Carries(buf[end], buf[end + 1], Crc.Checksum(buf[..end])) then Err(BadCrc)
      else Ok(Frame(U32At(buf, 4), buf[8], SamplesAt(buf, n)))
  }

  function SamplesAt(buf: seq<byte>, n: nat): (ss: seq<Sample>)
    requires HEADER_SIZE + SAMPLE_BYTES * n <= |buf|
    ensures |ss| == n
    ensures forall i :: 0 <= i < n ==> ss[i] == SampleAt(buf, HEADER_SIZE + SAMPLE_BYTES * i)
  {
    seq(n, i requires 0 <= i < n => SampleAt(buf, HEADER_SIZE + SAMPLE_BYTES * i))
  }

  lemma SyncByBytes(buf: seq<byte>)
    requires 4 <= |buf|
    ensures buf[..4] == SYNC
       <==> buf[0] == 0x48 && buf[1] == 0x49 && buf[2] == 0x4C && buf[3] == 0x5A
  {
    var c := buf[..4];
    assert c == [c[0], c[1], c[2], c[3]];
    if c == SYNC {
      assert c[0] == SYNC[0] && c[1] == SYNC[1] && c[2] == SYNC[2] && c[3] == SYNC[3];
    }
  }

  /** Recomputes the checksum and compares it with the two trailer bytes. */
  method CrcMatches(payload: seq<byte>, low: byte, high: byte) returns (ok: bool)
    ensures ok <==> Crc.Carries(low, high, Crc.Checksum(payload))
  {
    var gotCrc := (low as bv16) | ((high as bv16) << 8);
    var crc := Crc.CRC16(payload);
    Crc.JoinComparesRegisters(crc, Crc.Checksum(payload), low, high, gotCrc);
    ok := crc == gotCrc;
  }

  method Decode(buf: seq<byte>) returns (r: Result<Frame, Error>)
    ensures r == Parse(buf)
  {
    if |buf| < HEADER_SIZE + SAMPLE_BYTES + 2 {
      return Err(Truncated);
    }
    SyncByBytes(buf);
    if buf[0] != 0x48 || buf[1] != 0x49 || buf[2] != 0x4C || buf[3] != 0x5A {
      return Err(InvalidSync);
    }
    var seqNo := U32At(buf, 4);
    var flags := buf[8];
    var n := buf[9];
    if n < 1 || n > MAX_BURST {
      return Err(Truncated);
    }
    var need := HEADER_SIZE + n * SAMPLE_BYTES + 2;
    if |buf| < need {
      return Err(Truncated);
    }
    var end := HEADER_SIZE + n * SAMPLE_BYTES;
    var payload := buf[..end];
    var crcOk := CrcMatches(payload, buf[end], buf[end + 1]);
    if !crcOk {
      return Err(BadCrc);
    }
    var samples := ReadSamples(buf, n);
    r := Ok(Frame(seqNo, flags, samples));
  }

  /** The loop over the samples. */
  method ReadSamples(buf: seq<byte>, n: nat) returns (ss: seq<Sample>)
    requires HEADER_SIZE + SAMPLE_BYTES * n <= |buf|
    ensures ss == SamplesAt(buf, n)
  {
    var samples := new Sample[n];
    var pos := HEADER_SIZE;
    for i := 0 to n
      invariant pos == HEADER_SIZE + SAMPLE_BYTES * i
      invariant forall j :: 0 <= j < i ==>
        samples[j] == SampleAt(buf, HEADER_SIZE + SAMPLE_BYTES * j)
    {
      var fpos := pos + 6;
      samples[i] := Sample(U32At(buf, pos), U16At(buf, pos + 4),
        U32At(buf, fpos), U32At(buf, fpos + 4), U32At(buf, fpos + 8),
        U32At(buf, fpos + 12), U32At(buf, fpos + 16));
      pos := pos + SAMPLE_BYTES;
    }
    ss := samples[..];
  }

  // ---------------------------------------------------- round trip

  lemma EqualByHalves<T>(c: seq<T>, e: seq<T>, n: nat)
    requires n <= |c| == |e|
    ensures c == e <==> c[..n] == e[..n] && c[n..] == e[n..]
  {
    assert c == c[..n] + c[n..] && e == e[..n] + e[n..];
  }

  /** A word appended to `x`, read back from where `x` ends. */
  lemma AppendedWord(b: seq<byte>, pos: nat, x: seq<byte>, w: u32)
    requires pos + |x| + 4 <= |b|
    ensures b[pos..pos + |x| + 4] == x + LE32(w)
       <==> b[pos..pos + |x|] == x && U32At(b, pos + |x|) == w
  {
    var c, e := b[pos..pos + |x| + 4], x + LE32(w);
    LE32RoundTrip(b, pos + |x|, w);
    assert c[..|x|] == b[pos..pos + |x|] && c[|x|..] == b[pos + |x|..pos + |x| + 4];
    assert e[..|x|] == x && e[|x|..] == LE32(w);
    EqualByHalves(c, e, |x|);
  }

  lemma StampRoundTrip(b: seq<byte>, pos: nat, t: u32, e: u16)
    requires pos + 6 <= |b|
    ensures b[pos..pos + 6] == LE32(t) + LE16(e)
       <==> U32At(b, pos) == t && U16At(b, pos + 4) == e
  {
    var c, d := b[pos..pos + 6], LE32(t) + LE16(e);
    LE32RoundTrip(b, pos, t);
    LE16RoundTrip(b, pos + 4, e);
    assert c[..4] == b[pos..pos + 4] && c[4..] == b[pos + 4..pos + 6];
    assert d[..4] == LE32(t) && d[4..] == LE16(e);
    EqualByHalves(c, d, 4);
  }

  lemma SampleRoundTrip(b: seq<byte>, pos: nat, s: Sample)
    requires pos + SAMPLE_BYTES <= |b|
    ensures b[pos..pos + SAMPLE_BYTES] == EncodeSample(s) <==> SampleAt(b, pos) == s
  {
    var e0 := LE32(s.tCycles) + LE16(s.epoch);
    var e1 := e0 + LE32(s.ia);
    var e2 := e1 + LE32(s.ib);
    var e3 := e2 + LE32(s.fluxA);
    var e4 := e3 + LE32(s.fluxB);
    StampRoundTrip(b, pos, s.tCycles, s.epoch);
    AppendedWord(b, pos, e0, s.ia);
    AppendedWord(b, pos, e1, s.ib);
    AppendedWord(b, pos, e2, s.fluxA);
    AppendedWord(b, pos, e3, s.fluxB);
    AppendedWord(b, pos, e4, s.speed);
  }

  predicate ReadsAs(b: seq<byte>, pos: nat, ss: seq<Sample>)
    requires pos + SAMPLE_BYTES * |ss| <= |b|
  {
    forall i :: 0 <= i < |ss| ==> SampleAt(b, pos + SAMPLE_BYTES * i) == ss[i]
  }

  lemma LastSampleApart(b: seq<byte>, pos: nat, ss: seq<Sample>)
    requires ss != [] && pos + SAMPLE_BYTES * |ss| <= |b|
    ensures var k := |ss| - 1;
            ReadsAs(b, pos, ss) <==>
            ReadsAs(b, pos, ss[..k]) && SampleAt(b, pos + SAMPLE_BYTES * k) == ss[k]
  {
    assert forall i :: 0 <= i < |ss| - 1 ==> ss[..|ss| - 1][i] == ss[i];
  }

  /** A run of encoded samples, read sample by sample. */
  lemma {:induction false} SamplesRoundTrip(b: seq<byte>, pos: nat, ss: seq<Sample>)
    requires pos + SAMPLE_BYTES * |ss| <= |b|
    ensures b[pos..pos + SAMPLE_BYTES * |ss|] == EncodeSamples(ss) <==> ReadsAs(b, pos, ss)
    decreases |ss|
  {
    if ss != [] {
      var k := |ss| - 1;
      var mid, end := pos + SAMPLE_BYTES * k, pos + SAMPLE_BYTES * |ss|;
      SamplesRoundTrip(b, pos, ss[..k]);
      SampleRoundTrip(b, mid, ss[k]);
      LastSampleApart(b, pos, ss);
      var c, e := b[pos..end], EncodeSamples(ss);
      assert c[..mid - pos] == b[pos..mid] && c[mid - pos..] == b[mid..end];
      assert e[..mid - pos] == EncodeSamples(ss[..k]) && e[mid - pos..] == EncodeSample(ss[k]);
      EqualByHalves(c, e, mid - pos);
    }
  }

  predicate HeaderMatches(b: seq<byte>, f: Frame)
    requires HEADER_SIZE <= |b|
  {
    b[..4] == SYNC && U32At(b, 4) == f.seqNo && b[8] == f.flags && b[9] == |f.samples|
  }

  lemma HeaderRoundTrip(b: seq<byte>, f: Frame)
    requires |f.samples| <= MAX_BURST && HEADER_SIZE <= |b|
    ensures b[..HEADER_SIZE] == SYNC + LE32(f.seqNo) + [f.flags, |f.samples|]
       <==> HeaderMatches(b, f)
  {
    LE32RoundTrip(b, 4, f.seqNo);
    var c := b[..HEADER_SIZE];
    var e := SYNC + LE32(f.seqNo) + [f.flags, |f.samples|];
    assert c[..8][..4] == b[..4] && c[..8][4..] == b[4..8] && c[8..] == [b[8], b[9]];
    assert e[..8][..4] == SYNC && e[..8][4..] == LE32(f.seqNo) && e[8..] == [f.flags, |f.samples|];
    EqualByHalves(c, e, 8);
    EqualByHalves(c[..8], e[..8], 4);
    assert [b[8], b[9]] == [f.flags, |f.samples|] <==> b[8] == f.flags && b[9] == |f.samples| by {
      if [b[8], b[9]] == [f.flags, |f.samples|] {
        assert [b[8], b[9]][0] == [f.flags, |f.samples|][0];
        assert [b[8], b[9]][1] == [f.flags, |f.samples|][1];
      }
    }
  }

  lemma PayloadRoundTrip(b: seq<byte>, f: Frame)
    requires |f.samples| <= MAX_BURST
    requires HEADER_SIZE + SAMPLE_BYTES * |f.samples| <= |b|
    ensures b[..HEADER_SIZE + SAMPLE_BYTES * |f.samples|] == Payload(f)
       <==> HeaderMatches(b, f) && SamplesAt(b, |f.samples|) == f.samples
  {
    var end := HEADER_SIZE + SAMPLE_BYTES * |f.samples|;
    var c, e := b[..end], Payload(f);
    assert c[..HEADER_SIZE] == b[..HEADER_SIZE] && c[HEADER_SIZE..] == b[HEADER_SIZE..end];
    assert e[..HEADER_SIZE] == SYNC + LE32(f.seqNo) + [f.flags, |f.samples|];
    assert e[HEADER_SIZE..] == EncodeSamples(f.samples);
    EqualByHalves(c, e, HEADER_SIZE);
    HeaderRoundTrip(b, f);
    SamplesRoundTrip(b, HEADER_SIZE, f.samples);
    assert SamplesAt(b, |f.samples|) == f.samples <==> ReadsAs(b, HEADER_SIZE, f.samples);
  }

  lemma DatagramParses(buf: seq<byte>, f: Frame)
    requires IsDatagram(buf, f)
    ensures Parse(buf) == Ok(f)
  {
    PayloadRoundTrip(buf, f);
  }

  lemma ParsedIsDatagram(buf: seq<byte>, f: Frame)
    requires Parse(buf) == Ok(f)
    ensures IsDatagram(buf, f)
  {
    PayloadRoundTrip(buf, f);
  }

  /** Decoding accepts exactly the well-formed datagrams, and returns what was
      encoded. */
  lemma DecodeInvertsEncode(buf: seq<byte>, f: Frame)
    ensures Parse(buf) == Ok(f) <==> IsDatagram(buf, f)
  {
    if Parse(buf) == Ok(f) { ParsedIsDatagram(buf, f); }
    if IsDatagram(buf, f) { DatagramParses(buf, f); }
  }

  /** Two datagrams of one length that agree outside their sample bytes. */
  predicate OnlySamplesDiffer(buf: seq<byte>, other: seq<byte>, n: nat)
    requires HEADER_SIZE + SAMPLE_BYTES * n <= |buf| == |other|
  {
    && buf[..HEADER_SIZE] == other[..HEADER_SIZE]
    && buf[HEADER_SIZE + SAMPLE_BYTES * n..] == other[HEADER_SIZE + SAMPLE_BYTES * n..]
    && buf != other
  }

  /** A datagram whose sample bytes were changed so that the checksum differs is
      rejected for it. */
  lemma DifferentChecksumRejected(buf: seq<byte>, damaged: seq<byte>, f: Frame)
    requires IsDatagram(buf, f) && |damaged| == |buf|
    requires OnlySamplesDiffer(buf, damaged, |f.samples|)
    requires var end := HEADER_SIZE + SAMPLE_BYTES * |f.samples|;
             Crc.Checksum(buf[..end]) != Crc.Checksum(damaged[..end])
    ensures Parse(damaged) == Err(BadCrc)
  {
    var end := HEADER_SIZE + SAMPLE_BYTES * |f.samples|;
    PayloadRoundTrip(buf, f);
    SameFrame(buf, damaged, end);
  }

  lemma SameFrame(buf: seq<byte>, damaged: seq<byte>, end: nat)
    requires HEADER_SIZE <= end && end + 2 <= |buf| == |damaged| && buf[..4] == SYNC
    requires buf[..HEADER_SIZE] == damaged[..HEADER_SIZE] && buf[end..] == damaged[end..]
    ensures damaged[..4] == SYNC && damaged[9] == buf[9]
    ensures damaged[end] == buf[end] && damaged[end + 1] == buf[end + 1]
  {
    assert damaged[..HEADER_SIZE][..4] == buf[..HEADER_SIZE][..4] == SYNC;
    assert damaged[..HEADER_SIZE][9] == buf[..HEADER_SIZE][9];
    assert damaged[end..][0] == buf[end..][0] && damaged[end..][1] == buf[end..][1];
  }

  /** The bits in which the checked parts of two datagrams differ. */
  function WrongBits(buf: seq<byte>, damaged: seq<byte>, n: nat): seq<bool>
    requires HEADER_SIZE + SAMPLE_BYTES * n <= |buf| == |damaged|
  {
    var end := HEADER_SIZE + SAMPLE_BYTES * n;
    Crc.Difference(Crc.Bits(buf[..end]), Crc.Bits(damaged[..end]))
  }

  lemma SamplesDiffer(buf: seq<byte>, damaged: seq<byte>, n: nat)
    requires HEADER_SIZE + SAMPLE_BYTES * n <= |buf| == |damaged| && OnlySamplesDiffer(buf, damaged, n)
    ensures buf[..HEADER_SIZE + SAMPLE_BYTES * n] != damaged[..HEADER_SIZE + SAMPLE_BYTES * n]
  {
    var end := HEADER_SIZE + SAMPLE_BYTES * n;
    assert buf == buf[..end] + buf[end..] && damaged == damaged[..end] + damaged[end..];
  }

  /** A datagram whose sample bytes suffered a burst of at most 16 bits, or any
      odd number of flipped bits, is rejected for its checksum. */
  lemma DamagedSamplesRejected(buf: seq<byte>, damaged: seq<byte>, f: Frame, p: int)
    requires IsDatagram(buf, f) && |damaged| == |buf|
    requires OnlySamplesDiffer(buf, damaged, |f.samples|)
    requires var d := WrongBits(buf, damaged, |f.samples|); Crc.ConfinedTo(d, p, 16) || Crc.Odd(d)
    ensures Parse(damaged) == Err(BadCrc)
  {
    var end := HEADER_SIZE + SAMPLE_BYTES * |f.samples|;
    if Crc.Odd(WrongBits(buf, damaged, |f.samples|)) {
      Crc.OddErrorsDetected(buf[..end], damaged[..end]);
    } else {
      SamplesDiffer(buf, damaged, |f.samples|);
      Crc.BurstDetected(buf[..end], damaged[..end], p);
    }
    DifferentChecksumRejected(buf, damaged, f);
  }

  /** So is one with any two wrong bits: no datagram is long enough for two bits to
      cancel. With the odd numbers, up to three wrong bits are always detected. */
  lemma TwoWrongBitsRejected(buf: seq<byte>, damaged: seq<byte>, f: Frame, p: nat, q: nat)
    requires IsDatagram(buf, f) && |damaged| == |buf|
    requires OnlySamplesDiffer(buf, damaged, |f.samples|)
    requires D.TwoBits(WrongBits(buf, damaged, |f.samples|), p, q)
    ensures Parse(damaged) == Err(BadCrc)
  {
    var end := HEADER_SIZE + SAMPLE_BYTES * |f.samples|;
    assert q < 8 * end;
    D.CloseErrorsDetected(buf[..end], damaged[..end], p, q);
    DifferentChecksumRejected(buf, damaged, f);
  }
}
