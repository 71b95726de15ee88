/** Where each bit of the DMA telemetry frame goes (dma_telem.c), byte by byte. */
module DmaBits {
  import opened Bits
  import opened Bytes
  import opened DmaFrame
  import Arith

  /** Bit `i` of a number. */
  predicate Bit(n: nat, i: nat) { Shr(n, i) % 2 == 1 }

  /** The bytes from `i` on as one little-endian number. */
  function BytesFrom(f: seq<byte>, i: nat): nat
    requires i <= |f|
    decreases |f| - i
  {
    if i == |f| then 0 else f[i] as int + 0x100 * BytesFrom(f, i + 1)
  }

  lemma FourBytes(f: seq<byte>, i: nat)
    requires i + 4 <= |f|
    ensures BytesFrom(f, i) == U32At(f, i) + 0x1_0000_0000 * BytesFrom(f, i + 4)
  {
    assert BytesFrom(f, i) == f[i] as int + 0x100 * BytesFrom(f, i + 1);
    assert BytesFrom(f, i + 1) == f[i + 1] as int + 0x100 * BytesFrom(f, i + 2);
    assert BytesFrom(f, i + 2) == f[i + 2] as int + 0x100 * BytesFrom(f, i + 3);
  }

  lemma OneWord(f: seq<byte>, i: nat)
    requires |f| == FRAME_BYTES && i < 4
    ensures BytesFrom(f, 8 * i) == WordAt(f, i) + WORD * BytesFrom(f, 8 * (i + 1))
  {
    FourBytes(f, 8 * i);
    FourBytes(f, 8 * i + 4);
  }

  lemma {:induction false} WordsAreBytes(f: seq<byte>, i: nat)
    requires |f| == FRAME_BYTES && i <= 4
    ensures From(WordsOf(f), i) == BytesFrom(f, 8 * i)
    decreases 4 - i
  {
    if i < 4 {
      WordsAreBytes(f, i + 1);
      OneWord(f, i);
      assert WordsOf(f)[i] == WordAt(f, i);
    }
  }

  lemma BytePower()
    ensures Pow2(8) == 0x100
  {
    Powers();
  }

  lemma {:induction false} BytesShift(f: seq<byte>, i: nat)
    requires i <= |f|
    ensures Shr(BytesFrom(f, 0), 8 * i) == BytesFrom(f, i)
  {
    if i > 0 {
      BytesShift(f, i - 1);
      BytePower();
      ShrTwice(BytesFrom(f, 0), 8 * (i - 1), 8);
      ShrDigit(f[i - 1] as int, 8, 0x100, BytesFrom(f, i));
    }
  }

  /** The frame is the little-endian number of its bytes. */
  lemma FrameIsNumber(f: seq<byte>)
    requires |f| == FRAME_BYTES
    ensures Value(WordsOf(f)) == BytesFrom(f, 0)
  {
    WordsAreBytes(f, 0);
  }

  lemma ByteAt(f: seq<byte>, i: nat)
    requires i < |f|
    ensures Shr(BytesFrom(f, 0), 8 * i) % 0x100 == f[i] as int
  {
    BytesShift(f, i);
    Arith.LowDigit(f[i] as int, 0x100, BytesFrom(f, i + 1));
  }

  // ------------------------------------------------------------ bits

  lemma LowHalves(x: nat, n: nat, p: nat, q: nat, half: nat)
    requires p >= 1 && q == 2 * half && half >= 1 && n == p * q && n >= 1
    ensures x % n / p % 2 == x / p % 2
  {
    LowQuotient(x, x % n, x / n, n, p, q);
    Arith.MultipleDropped(x % n / p, 2, half, x / n);
  }

  lemma LowQuotient(x: nat, low: nat, rest: nat, n: nat, p: nat, q: nat)
    requires p >= 1 && n == p * q && x == low + n * rest
    ensures x / p == low / p + q * rest
  {
    var a, b := low / p, low % p;
    assert low == p * a + b;
    Arith.Regroup(p, q, rest, a);
    Arith.DivModUnique(x, p, q * rest + a, b);
  }

  /** The lower bits of a number are those of its remainder. */
  lemma BitOfLow(x: nat, width: nat, i: nat)
    requires i < width
    ensures Bit(x % Pow2(width), i) <==> Bit(x, i)
  {
    Pow2Adds(i, width - i);
    ShrDivides(x, i);
    ShrDivides(x % Pow2(width), i);
    LowHalves(x, Pow2(width), Pow2(i), Pow2(width - i), Pow2(width - i - 1));
  }

  lemma BitAbove(x: nat, at: nat, i: nat)
    ensures Bit(Shr(x, at), i) <==> Bit(x, at + i)
  {
    ShrTwice(x, at, i);
  }

  /** Bit `bit` of the frame is a bit of one byte, counted from the lowest. */
  lemma FrameBit(f: seq<byte>, bit: nat)
    requires |f| == FRAME_BYTES && bit < 256
    ensures Bit(Value(WordsOf(f)), bit) <==> Bit(f[bit / 8] as int, bit % 8)
  {
    var n, i := BytesFrom(f, 0), bit / 8;
    FrameIsNumber(f);
    ByteAt(f, i);
    BytePower();
    BitOfLow(Shr(n, 8 * i), 8, bit % 8);
    BitAbove(n, 8 * i, bit % 8);
  }

  /** A decoded field is congruent to its 42 bits and in the range of 42 signed bits. */
  lemma SignedMeans(u: nat)
    requires u < FIELD_SIZE
    ensures Signed(u) % FIELD_SIZE == u && -FIELD_SIZE / 2 <= Signed(u) < FIELD_SIZE / 2
  {}

  lemma PartBit(n: nat, at: nat, width: nat, size: nat, i: nat)
    requires i < width && size == Pow2(width)
    ensures Bit(Shr(n, at) % size, i) <==> Bit(n, at + i)
  {
    BitOfLow(Shr(n, at), width, i);
    BitAbove(n, at, i);
  }

  lemma FieldPart(n: nat, k: nat)
    requires k < FIELDS
    ensures Decoded(n).fields[k] % FIELD_SIZE == Shr(n, 42 * k) % FIELD_SIZE
  {
    FieldAt(n, k);
    SignedMeans(Shr(n, 42 * k) % FIELD_SIZE);
  }

  lemma PartPowers()
    ensures Pow2(42) == FIELD_SIZE && Pow2(32) == 0x1_0000_0000 && Pow2(14) == 0x4000
  {
    Powers();
  }

  /** What a bit of the frame stands for: 42 bits for each of the five fields in
      two's complement, then 32 of the time stamp, then 14 of the epoch. */
  predicate DecodedBit(s: Sample, bit: nat)
    requires |s.fields| == FIELDS && bit < 256
  {
    if bit < 210 then Bit(s.fields[bit / 42] % FIELD_SIZE, bit % 42)
    else if bit < 242 then Bit(s.tCycles, bit - 210)
    else Bit(s.epoch, bit - 242)
  }

  lemma BitOfField(n: nat, k: nat, i: nat)
    requires k < FIELDS && i < 42
    ensures Bit(Decoded(n).fields[k] % FIELD_SIZE, i) <==> Bit(n, 42 * k + i)
  {
    PartPowers();
    FieldPart(n, k);
    PartBit(n, 42 * k, 42, FIELD_SIZE, i);
  }

  lemma BitOfStamp(n: nat, i: nat)
    requires i < 32
    ensures Bit(StampOf(n), i) <==> Bit(n, 210 + i)
  {
    PartPowers();
    PartBit(n, 210, 32, 0x1_0000_0000, i);
  }

  lemma BitOfEpoch(n: nat, i: nat)
    requires i < 14
    ensures Bit(EpochOf(n), i) <==> Bit(n, 242 + i)
  {
    PartPowers();
    PartBit(n, 242, 14, 0x4000, i);
  }

  lemma NumberDecoded(n: nat, bit: nat)
    requires bit < 256
    ensures DecodedBit(Decoded(n), bit) <==> Bit(n, bit)
  {
    if bit < 210 {
      BitOfField(n, bit / 42, bit % 42);
    } else if bit < 242 {
      BitOfStamp(n, bit - 210);
    } else {
      BitOfEpoch(n, bit - 242);
    }
  }

  /** Every bit of a frame, counted from the lowest bit of its first byte, is the
      one bit it stands for of what is decoded; and a field is in the range of 42
      signed bits. */
  lemma EveryBitDecoded(f: seq<byte>, bit: nat)
    requires |f| == FRAME_BYTES && bit < 256
    ensures var s := Decoded(Value(WordsOf(f)));
      && (DecodedBit(s, bit) <==> Bit(f[bit / 8] as int, bit % 8))
      && forall k :: 0 <= k < FIELDS ==> -FIELD_SIZE / 2 <= s.fields[k] < FIELD_SIZE / 2
  {
    FrameBit(f, bit);
    NumberDecoded(Value(WordsOf(f)), bit);
    DecodedFits(Value(WordsOf(f)));
  }
}
