/** The 256-bit telemetry frame of the DMA path (dma_telem.c): five packed 42-bit
    fields, a time stamp and an epoch. Values are raw integers; scaling to floats
    comes after. */
module DmaFrame {
  import opened Bits
  import opened Bytes
  import Arith

  const FRAME_BYTES := 32
  const FIELDS := 5
  const FIELD_BITS := 42
  const FIELD_SIZE := 0x400_0000_0000
  const FIELD_MASK := FIELD_SIZE - 1
  const WORD_BITS := 64
  const WORD := 0x1_0000_0000_0000_0000

  // ------------------------------------------------------------ layout

  /** A 64-bit word of the frame, as little-endian memory gives it. */
  function WordAt(f: seq<byte>, i: nat): (w: nat)
    requires |f| == FRAME_BYTES && i < 4
    ensures w < WORD
  {
    U32At(f, 8 * i) + 0x1_0000_0000 * U32At(f, 8 * i + 4)
  }

  type Words = ws: seq<nat> | |ws| == 4 && forall i :: 0 <= i < 4 ==> ws[i] < WORD witness [0, 0, 0, 0]

  function WordsOf(f: seq<byte>): Words
    requires |f| == FRAME_BYTES
  {
    [WordAt(f, 0), WordAt(f, 1), WordAt(f, 2), WordAt(f, 3)]
  }

  /** Words `i` and up as one number. */
  function From(ws: Words, i: nat): nat
    requires i <= 4
    decreases 4 - i
  {
    if i == 4 then 0 else ws[i] + WORD * From(ws, i + 1)
  }

  /** The words as one 256-bit number. */
  function Value(ws: Words): nat { From(ws, 0) }

  /** Bits `lo` to `lo + width - 1` of a number. */
  function Unsigned(n: nat, lo: nat, width: nat): nat { Shr(n, lo) % Pow2(width) }

  /** 42 bits read as two's complement. */
  function Signed(u: nat): int { if u >= FIELD_SIZE / 2 then u - FIELD_SIZE else u }

  /** Field `k`: bits 42k to 42k + 41. */
  function FieldOf(n: nat, k: nat): int { Signed(Shr(n, FIELD_BITS * k) % FIELD_SIZE) }

  /** Bits 210 to 241. */
  function StampOf(n: nat): nat { Shr(n, 210) % 0x1_0000_0000 }

  /** Bits 242 to 255. */
  function EpochOf(n: nat): nat { Shr(n, 242) % 0x4000 }

  // ------------------------------------------------------------ machine words

  lemma WordPower()
    ensures Pow2(WORD_BITS) == WORD
  {
    Powers();
  }

  lemma FieldPower()
    ensures Pow2(FIELD_BITS) == FIELD_SIZE
  {
    Powers();
  }

  lemma StampPower()
    ensures Pow2(32) == 0x1_0000_0000
  {
    Powers();
  }

  lemma ShiftOneWord(v: nat, i: nat, word: nat, rest: nat)
    requires word < WORD == Pow2(WORD_BITS) && word + WORD * rest == Shr(v, WORD_BITS * i)
    ensures rest == Shr(v, WORD_BITS * (i + 1))
  {
    Arith.LowDigit(word, WORD, rest);
    ShrTwice(v, WORD_BITS * i, WORD_BITS);
    ShrDivides(word + WORD * rest, WORD_BITS);
  }

  lemma ShrTwice(x: nat, a: nat, b: nat)
    ensures Shr(x, a + b) == Shr(Shr(x, a), b)
  {
    Pow2Adds(a, b);
    ShrDivides(x, a + b);
    ShrDivides(x, a);
    ShrDivides(x / Pow2(a), b);
    Arith.DivideTwice(x, Pow2(a), Pow2(b), Pow2(a + b));
  }

  /** The words from `i` up are the frame shifted right. */
  lemma {:induction false} FromShifts(ws: Words, i: nat)
    requires i <= 4
    ensures From(ws, i) == Shr(Value(ws), WORD_BITS * i)
  {
    if i > 0 {
      FromShifts(ws, i - 1);
      WordPower();
      ShiftOneWord(Value(ws), i - 1, ws[i - 1], From(ws, i));
    }
  }

  /** Shifting a word and what lies above it. */
  lemma ShiftSplits(w: nat, rest: nat, shift: nat)
    requires w < WORD && shift <= WORD_BITS
    ensures Shr(w + WORD * rest, shift) == Shr(w, shift) + Pow2(WORD_BITS - shift) * rest
    ensures Shr(w, shift) < Pow2(WORD_BITS - shift)
  {
    Pow2Adds(shift, WORD_BITS - shift);
    WordPower();
    ShrDivides(w + WORD * rest, shift);
    ShrDivides(w, shift);
    QuotientSplits(w, rest, Pow2(shift), Pow2(WORD_BITS - shift), WORD);
  }

  lemma QuotientSplits(w: nat, rest: nat, p: nat, q: nat, n: nat)
    requires p >= 1 && n == p * q && w < n
    ensures (w + n * rest) / p == w / p + q * rest && w / p < q
  {
    var a, b := w / p, w % p;
    assert w == p * a + b;
    Arith.Regroup(p, q, rest, a);
    Arith.DivModUnique(w + n * rest, p, q * rest + a, b);
    assert a >= q ==> p * a >= p * q;
  }

  /** The frame above some bit of word `i`. */
  lemma SplitAt(ws: Words, i: nat, shift: nat)
    requires i < 4 && shift <= WORD_BITS
    ensures Shr(Value(ws), WORD_BITS * i + shift)
         == Shr(ws[i], shift) + Pow2(WORD_BITS - shift) * From(ws, i + 1)
    ensures Shr(ws[i], shift) < Pow2(WORD_BITS - shift)
  {
    FromShifts(ws, i);
    ShrTwice(Value(ws), WORD_BITS * i, shift);
    ShiftSplits(ws[i], From(ws, i + 1), shift);
  }

  lemma InsideModulo(x: nat, low: nat, q: nat, rest: nat, r: nat, s: nat)
    requires r >= 1 && x == low + q * rest && q == r * s
    ensures x % r == low % r
  {
    Arith.MultipleDropped(low, r, s, rest);
  }

  lemma InsideWord(x: nat, low: nat, rest: nat, shift: nat, width: nat)
    requires shift + width <= WORD_BITS && x == low + Pow2(WORD_BITS - shift) * rest
    ensures x % Pow2(width) == low % Pow2(width)
  {
    var above := WORD_BITS - shift - width;
    Pow2Adds(width, above);
    InsideModulo(x, low, Pow2(WORD_BITS - shift), rest, Pow2(width), Pow2(above));
  }

  /** A field inside one word. */
  lemma FieldInside(ws: Words, i: nat, shift: nat, width: nat)
    requires i < 4 && shift + width <= WORD_BITS
    ensures Unsigned(Value(ws), WORD_BITS * i + shift, width) == Shr(ws[i], shift) % Pow2(width)
  {
    var x, low := Shr(Value(ws), WORD_BITS * i + shift), Shr(ws[i], shift);
    SplitAt(ws, i, shift);
    InsideWord(x, low, From(ws, i + 1), shift, width);
  }

  lemma AcrossModulo(x: nat, low: nat, q: nat, rest: nat, u: nat, m: nat, w: nat, v: nat, above: nat)
    requires low < q && u >= 1 && m == q * u && x == low + q * rest && rest == w + (u * v) * above
    ensures m >= 1 && x % m == low + q * (w % u)
  {
    Arith.LowDigits(low, q, rest, u, m);
    Arith.MultipleDropped(w, u, v, above);
  }

  lemma AcrossWords(x: nat, low: nat, rest: nat, w: nat, above: nat, shift: nat, width: nat, u: nat)
    requires shift < WORD_BITS && shift + width == WORD_BITS + u && u <= WORD_BITS
    requires low < Pow2(WORD_BITS - shift) && x == low + Pow2(WORD_BITS - shift) * rest
    requires rest == w + Pow2(WORD_BITS) * above
    ensures x % Pow2(width) == low + Pow2(WORD_BITS - shift) * (w % Pow2(u))
  {
    Pow2Adds(WORD_BITS - shift, u);
    Pow2Adds(u, WORD_BITS - u);
    AcrossModulo(x, low, Pow2(WORD_BITS - shift), rest, Pow2(u), Pow2(width), w, Pow2(WORD_BITS - u), above);
  }

  /** A field that crosses into the next word. */
  lemma FieldAcross(ws: Words, i: nat, shift: nat, width: nat, u: nat)
    requires i < 3 && shift < WORD_BITS
    requires shift + width == WORD_BITS + u && u <= WORD_BITS
    ensures var low := Shr(ws[i], shift);
      && low < Pow2(WORD_BITS - shift)
      && Unsigned(Value(ws), WORD_BITS * i + shift, width)
         == low + Pow2(WORD_BITS - shift) * (ws[i + 1] % Pow2(u))
  {
    var x, low := Shr(Value(ws), WORD_BITS * i + shift), Shr(ws[i], shift);
    SplitAt(ws, i, shift);
    WordPower();
    AcrossWords(x, low, From(ws, i + 1), ws[i + 1], From(ws, i + 2), shift, width, u);
  }

  // ------------------------------------------------------------ decoding

  /** Shifting left in a 64-bit register. */
  function Shl(x: nat, n: nat): nat { x * Pow2(n) % WORD }

  /** A 64-bit register read as a signed integer. */
  function ToInt64(x: nat): int
    requires x < WORD
  {
    if x >= 0x8000_0000_0000_0000 then x - WORD else x
  }

  lemma MaskedField(x: nat)
    ensures And(x, FIELD_MASK) == x % FIELD_SIZE
  {
    FieldPower();
    AndMask(x, FIELD_BITS);
  }

  lemma NoOverflow(h: nat, q: nat, u: nat)
    requires h < u && q * u == FIELD_SIZE
    ensures h * q < FIELD_SIZE
  {
    Arith.ProductOrder(q, h, u);
  }

  lemma ShlFits(h: nat, n: nat)
    requires h * Pow2(n) < WORD
    ensures Shl(h, n) == h * Pow2(n)
  {}

  lemma OrPlaced(low: nat, h: nat, n: nat, q: nat)
    requires low < q == Pow2(n) && h * q < WORD
    ensures Or(low, Shl(h, n)) == low + q * h
  {
    ShlFits(h, n);
    OrDisjoint(low, h, n);
  }

  lemma LowBitsFit(w: nat, n: nat, u: nat)
    requires n + u == FIELD_BITS
    ensures (w % Pow2(u)) * Pow2(n) < FIELD_SIZE
  {
    Pow2Adds(n, u);
    FieldPower();
    NoOverflow(w % Pow2(u), Pow2(n), Pow2(u));
  }

  /** The upper part of a crossing field, moved into place without loss. */
  lemma JoinedField(low: nat, w: nat, n: nat, u: nat)
    requires n + u == FIELD_BITS && low < Pow2(n)
    ensures Or(low, Shl(And(w, Pow2(u) - 1), n)) == low + Pow2(n) * (w % Pow2(u))
  {
    AndMask(w, u);
    LowBitsFit(w, n, u);
    OrPlaced(low, w % Pow2(u), n, Pow2(n));
  }

  lemma ExtractInside(w: Words, i: nat, shift: nat)
    requires i < 4 && shift + FIELD_BITS <= WORD_BITS
    ensures And(Shr(w[i], shift), FIELD_MASK) == Shr(Value(w), WORD_BITS * i + shift) % FIELD_SIZE
  {
    FieldPower();
    MaskedField(Shr(w[i], shift));
    FieldInside(w, i, shift, FIELD_BITS);
  }

  lemma ExtractAcross(w: Words, i: nat, shift: nat, u: nat)
    requires i < 3 && shift < WORD_BITS && shift + FIELD_BITS == WORD_BITS + u
    ensures Or(Shr(w[i], shift), Shl(And(w[i + 1], Pow2(u) - 1), WORD_BITS - shift))
         == Shr(Value(w), WORD_BITS * i + shift) % FIELD_SIZE
  {
    FieldPower();
    FieldAcross(w, i, shift, FIELD_BITS, u);
    JoinedField(Shr(w[i], shift), w[i + 1], WORD_BITS - shift, u);
  }

  /** One field from the words: from one of them, or from two. */
  method Extract(w: Words, k: nat) returns (val: nat)
    requires k < FIELDS
    ensures val == Shr(Value(w), FIELD_BITS * k) % FIELD_SIZE
  {
    var blo := k * 42;
    var wlo, shlo := blo / 64, blo % 64;
    var bhi := blo + 41;
    var whi := bhi / 64;
    FieldPlace(k);
    if wlo == whi {
      val := And(Shr(w[wlo], shlo), FIELD_MASK);
      ExtractInside(w, wlo, shlo);
    } else {
      var bitsLo, shHi := 64 - shlo, bhi % 64;
      val := Or(Shr(w[wlo], shlo), Shl(And(w[whi], Pow2(shHi + 1) - 1), bitsLo));
      ExtractAcross(w, wlo, shlo, shHi + 1);
    }
  }

  /** Where field `k` lies: inside one word, or across two. */
  lemma FieldPlace(k: nat)
    requires k < FIELDS
    ensures var blo, bhi := k * 42, k * 42 + 41;
      && WORD_BITS * (blo / 64) + blo % 64 == FIELD_BITS * k
      && (blo / 64 == bhi / 64 ==> blo / 64 < 4 && blo % 64 + FIELD_BITS <= WORD_BITS)
      && (blo / 64 != bhi / 64 ==>
            blo / 64 < 3 && bhi / 64 == blo / 64 + 1 && blo % 64 + FIELD_BITS == WORD_BITS + bhi % 64 + 1)
  {}

  lemma SignBits(val: nat)
    requires val < FIELD_SIZE
    ensures And(val, FIELD_SIZE / 2) != 0 <==> val >= FIELD_SIZE / 2
    ensures Or(val, WORD - 1 - FIELD_MASK) == val + (WORD - 1 - FIELD_MASK)
  {
    Powers();
    AndBit(val, 41);
    OrDisjoint(val, 0x3F_FFFF, FIELD_BITS);
  }

  method SignExtend(val: nat) returns (sv: int)
    requires val < FIELD_SIZE
    ensures sv == Signed(val)
  {
    SignBits(val);
    sv := if And(val, FIELD_SIZE / 2) != 0 then ToInt64(Or(val, WORD - 1 - FIELD_MASK)) else val;
  }

  /** The decoder: the five fields go where the caller says. */
  method DecodeFrame(f: seq<byte>, dst: array<int>) returns (tCycles: nat, epoch: nat)
    requires |f| == FRAME_BYTES && dst.Length == FIELDS
    modifies dst
    ensures forall k :: 0 <= k < FIELDS ==> dst[k] == FieldOf(Value(WordsOf(f)), k)
    ensures tCycles == StampOf(Value(WordsOf(f))) && epoch == EpochOf(Value(WordsOf(f)))
  {
    var w := WordsOf(f);
    for k := 0 to FIELDS
      invariant forall j :: 0 <= j < k ==> dst[j] == FieldOf(Value(w), j)
    {
      var val := Extract(w, k);
      dst[k] := SignExtend(val);
    }
    StampBits(w);
    tCycles := And(Shr(w[3], 18), 0xFFFF_FFFF);
    epoch := And(Shr(w[3], 50), 0x3FFF);
  }

  lemma StampBits(w: Words)
    ensures And(Shr(w[3], 18), 0xFFFF_FFFF) == StampOf(Value(w))
    ensures And(Shr(w[3], 50), 0x3FFF) == EpochOf(Value(w))
  {
    Powers();
    FieldInside(w, 3, 18, 32);
    FieldInside(w, 3, 50, 14);
    AndMask(Shr(w[3], 18), 32);
    AndMask(Shr(w[3], 50), 14);
  }

  // ------------------------------------------------------------ packing

  /** What a frame carries. */
  datatype Sample = Sample(fields: seq<int>, tCycles: nat, epoch: nat)

  predicate Fits(s: Sample) {
    && |s.fields| == FIELDS && s.tCycles < 0x1_0000_0000 && s.epoch < 0x4000
    && forall k :: 0 <= k < FIELDS ==> -FIELD_SIZE / 2 <= s.fields[k] < FIELD_SIZE / 2
  }

  /** Two's complement in 42 bits. */
  function Coded(x: int): (u: nat)
    requires -FIELD_SIZE / 2 <= x < FIELD_SIZE / 2
    ensures u < FIELD_SIZE && Signed(u) == x
  {
    if x < 0 then x + FIELD_SIZE else x
  }

  /** Field `k` and everything above it. */
  function PackFrom(s: Sample, k: nat): nat
    requires Fits(s) && k <= FIELDS
    decreases FIELDS - k
  {
    if k == FIELDS then s.tCycles + 0x1_0000_0000 * s.epoch
    else Coded(s.fields[k]) + FIELD_SIZE * PackFrom(s, k + 1)
  }

  function Packed(s: Sample): nat
    requires Fits(s)
  {
    PackFrom(s, 0)
  }

  function Decoded(n: nat): (s: Sample)
    ensures |s.fields| == FIELDS
  {
    Sample([FieldOf(n, 0), FieldOf(n, 1), FieldOf(n, 2), FieldOf(n, 3), FieldOf(n, 4)], StampOf(n), EpochOf(n))
  }

  lemma ShrDigit(low: nat, width: nat, size: nat, rest: nat)
    requires low < size == Pow2(width)
    ensures Shr(low + size * rest, width) == rest
    ensures (low + size * rest) % size == low
  {
    ShrDivides(low + size * rest, width);
    Arith.LowDigit(low, size, rest);
  }

  /** The lowest 42 bits above some bit, and the rest. */
  lemma FieldAbove(v: nat, at: nat, field: nat, rest: nat)
    requires Shr(v, at) == field + FIELD_SIZE * rest && field < FIELD_SIZE
    ensures Shr(v, at + FIELD_BITS) == rest && Shr(v, at) % FIELD_SIZE == field
  {
    FieldPower();
    ShrTwice(v, at, FIELD_BITS);
    ShrDigit(field, FIELD_BITS, FIELD_SIZE, rest);
  }

  lemma {:induction false} PackedShifts(s: Sample, k: nat)
    requires Fits(s) && k <= FIELDS
    ensures Shr(Packed(s), FIELD_BITS * k) == PackFrom(s, k)
  {
    if k > 0 {
      var at := FIELD_BITS * (k - 1);
      PackedShifts(s, k - 1);
      assert PackFrom(s, k - 1) == Coded(s.fields[k - 1]) + FIELD_SIZE * PackFrom(s, k);
      FieldAbove(Packed(s), at, Coded(s.fields[k - 1]), PackFrom(s, k));
      assert at + FIELD_BITS == FIELD_BITS * k;
    }
  }

  lemma FieldOfPacked(s: Sample, k: nat)
    requires Fits(s) && k < FIELDS
    ensures FieldOf(Packed(s), k) == s.fields[k]
  {
    PackedShifts(s, k);
    FieldAbove(Packed(s), FIELD_BITS * k, Coded(s.fields[k]), PackFrom(s, k + 1));
  }

  lemma StampAbove(above: nat, stamp: nat, epoch: nat)
    requires stamp < 0x1_0000_0000 && above == stamp + 0x1_0000_0000 * epoch
    ensures Shr(above, 32) == epoch && above % 0x1_0000_0000 == stamp
  {
    StampPower();
    ShrDigit(stamp, 32, 0x1_0000_0000, epoch);
  }

  lemma StampOfPacked(s: Sample)
    requires Fits(s)
    ensures StampOf(Packed(s)) == s.tCycles && EpochOf(Packed(s)) == s.epoch
  {
    var above := Shr(Packed(s), FIELD_BITS * FIELDS);
    PackedShifts(s, FIELDS);
    assert above == s.tCycles + 0x1_0000_0000 * s.epoch;
    StampAbove(above, s.tCycles, s.epoch);
    ShrTwice(Packed(s), FIELD_BITS * FIELDS, 32);
  }

  /** Decoding a packed sample returns it. */
  lemma DecodeInvertsPack(s: Sample)
    requires Fits(s)
    ensures Decoded(Packed(s)) == s
  {
    var n := Packed(s);
    FieldOfPacked(s, 0);
    FieldOfPacked(s, 1);
    FieldOfPacked(s, 2);
    FieldOfPacked(s, 3);
    FieldOfPacked(s, 4);
    assert Decoded(n).fields == s.fields;
    StampOfPacked(s);
  }

  lemma TopFieldSmall(s: Sample)
    requires Fits(s)
    ensures PackFrom(s, 4) < 0x100_0000 * WORD
  {
    assert PackFrom(s, FIELDS) < 0x4000_0000_0000;
    assert PackFrom(s, 4) == Coded(s.fields[4]) + FIELD_SIZE * PackFrom(s, FIELDS);
  }

  lemma TopWordFits(s: Sample)
    requires Fits(s)
    ensures Shr(Packed(s), 192) < WORD
  {
    var above := Shr(Packed(s), FIELD_BITS * 4);
    PackedShifts(s, 4);
    TopFieldSmall(s);
    ShrTwice(Packed(s), FIELD_BITS * 4, 24);
    ShrDivides(above, 24);
    SmallPowers();
    PowProduct(8, 8, 256, 256);
    PowProduct(16, 8, 0x1_0000, 256);
    assert above / 0x100_0000 < WORD;
  }

  lemma ShrByWords(n: nat)
    ensures Shr(n, 192) == n / WORD / WORD / WORD
  {
    WordPower();
    ShrTwice(n, 128, 64);
    ShrTwice(n, 64, 64);
    ShrDivides(n, WORD_BITS);
    ShrDivides(n / WORD, WORD_BITS);
    ShrDivides(n / WORD / WORD, WORD_BITS);
  }

  /** A number as words, when it has no more than four. */
  lemma FourWords(n: nat) returns (ws: Words)
    requires n / WORD / WORD / WORD < WORD
    ensures Value(ws) == n
  {
    var a, b, c := n / WORD, n / WORD / WORD, n / WORD / WORD / WORD;
    ws := [n % WORD, a % WORD, b % WORD, c];
    assert From(ws, 4) == 0 && From(ws, 3) == c;
    assert From(ws, 2) == b && From(ws, 1) == a;
  }

  /** Packing always gives a 256-bit frame, and the decoder returns the sample from
      its words. */
  lemma PackIsFrame(s: Sample) returns (ws: Words)
    requires Fits(s)
    ensures Value(ws) == Packed(s) && Decoded(Value(ws)) == s
  {
    TopWordFits(s);
    ShrByWords(Packed(s));
    ws := FourWords(Packed(s));
    DecodeInvertsPack(s);
  }

  lemma CodedSigned(u: nat)
    requires u < FIELD_SIZE
    ensures -FIELD_SIZE / 2 <= Signed(u) < FIELD_SIZE / 2 && Coded(Signed(u)) == u
  {}

  lemma DecodedFits(n: nat)
    ensures Fits(Decoded(n))
  {
    CodedSigned(Shr(n, FIELD_BITS * 0) % FIELD_SIZE);
    CodedSigned(Shr(n, FIELD_BITS * 1) % FIELD_SIZE);
    CodedSigned(Shr(n, FIELD_BITS * 2) % FIELD_SIZE);
    CodedSigned(Shr(n, FIELD_BITS * 3) % FIELD_SIZE);
    CodedSigned(Shr(n, FIELD_BITS * 4) % FIELD_SIZE);
  }

  lemma SplitAbove(v: nat, at: nat, width: nat, size: nat)
    requires size == Pow2(width)
    ensures Shr(v, at) == Shr(v, at) % size + size * Shr(v, at + width)
  {
    ShrTwice(v, at, width);
    ShrDivides(Shr(v, at), width);
  }

  lemma RepackField(n: nat, s: Sample, k: nat)
    requires Fits(s) && k < FIELDS && s.fields[k] == FieldOf(n, k)
    requires PackFrom(s, k + 1) == Shr(n, FIELD_BITS * k + FIELD_BITS)
    ensures PackFrom(s, k) == Shr(n, FIELD_BITS * k)
  {
    var at := FIELD_BITS * k;
    SplitField(n, at);
    CodedSigned(Shr(n, at) % FIELD_SIZE);
    assert PackFrom(s, k) == Coded(s.fields[k]) + FIELD_SIZE * Shr(n, at + FIELD_BITS);
  }

  lemma SplitField(v: nat, at: nat)
    ensures Shr(v, at) == Shr(v, at) % FIELD_SIZE + FIELD_SIZE * Shr(v, at + FIELD_BITS)
  {
    FieldPower();
    SplitAbove(v, at, FIELD_BITS, FIELD_SIZE);
  }

  lemma RepackStamp(n: nat, s: Sample)
    requires Fits(s) && s.tCycles == StampOf(n) && s.epoch == EpochOf(n) && Shr(n, 242) < 0x4000
    ensures PackFrom(s, FIELDS) == Shr(n, 210)
  {
    StampPower();
    SplitAbove(n, 210, 32, 0x1_0000_0000);
  }

  /** Repacking what was decoded from bit 42k on. */
  lemma {:induction false} RepackFrom(n: nat, s: Sample, k: nat)
    requires Fits(s) && s == Decoded(n) && k <= FIELDS && Shr(n, 242) < 0x4000
    ensures PackFrom(s, k) == Shr(n, FIELD_BITS * k)
    decreases FIELDS - k
  {
    if k == FIELDS {
      RepackStamp(n, s);
    } else {
      RepackFrom(n, s, k + 1);
      FieldAt(n, k);
      RepackField(n, s, k);
    }
  }

  lemma FieldAt(n: nat, k: nat)
    requires k < FIELDS
    ensures Decoded(n).fields[k] == FieldOf(n, k)
  {
    assert k == 0 || k == 1 || k == 2 || k == 3 || k == 4;
  }

  /** Every frame is the packing of what is decoded from it: no bit is lost. */
  lemma PackInvertsDecode(ws: Words)
    ensures Fits(Decoded(Value(ws))) && Packed(Decoded(Value(ws))) == Value(ws)
  {
    var n := Value(ws);
    DecodedFits(n);
    SplitAt(ws, 3, 50);
    Powers();
    RepackFrom(n, Decoded(n), 0);
  }
}
