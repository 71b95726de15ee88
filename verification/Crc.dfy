/** CRC-16/CCITT-FALSE as both ends of the telemetry link compute it
    (frame.go and telemetry.c), and what the checksum guarantees.

    The specification is the bit-serial definition over GF(2): a register is a
    sequence of 16 bits, most significant first. The routine itself works on a
    16-bit machine word, one byte at a time, and is proved against it. */
module Crc {
  import opened Bytes
  import Arith

  type Reg = r: seq<bool> | |r| == 16 witness seq(16, _ => false)

  /** Exponents 12, 5 and 0 of the generator x^16 + x^12 + x^5 + 1. */
  predicate Tap(i: int) { i == 3 || i == 10 || i == 15 }

  function Zeros(n: nat): seq<bool> { seq(n, _ => false) }

  function Ones(): Reg { seq(16, _ => true) }

  function Shift(r: Reg): Reg {
    seq(16, i requires 0 <= i < 16 => (i < 15 && r[i + 1]) != (r[0] && Tap(i)))
  }

  function Shifts(r: Reg, n: nat): Reg
    decreases n
  {
    if n == 0 then r else Shifts(Shift(r), n - 1)
  }

  function Xor(x: Reg, y: Reg): Reg {
    seq(16, i requires 0 <= i < 16 => x[i] != y[i])
  }

  function AddBit(r: Reg, bit: bool): Reg { Shift(r[0 := r[0] != bit]) }

  /** The textbook division: one message bit at a time. */
  function FoldBits(r: Reg, bits: seq<bool>): Reg
    decreases bits
  {
    if bits == [] then r else FoldBits(AddBit(r, bits[0]), bits[1..])
  }

  /** The bits of a byte in the order they are divided. */
  function ByteBits(b: byte): (bits: seq<bool>)
    ensures |bits| == 8
  {
    WordBits(b as bv16)
  }

  /** The bits of the low half of a word. */
  function WordBits(v: bv16): (bits: seq<bool>)
    ensures |bits| == 8
  {
    [v & 0x80 != 0, v & 0x40 != 0, v & 0x20 != 0, v & 0x10 != 0,
     v & 0x08 != 0, v & 0x04 != 0, v & 0x02 != 0, v & 0x01 != 0]
  }

  function Bits(data: seq<byte>): (bits: seq<bool>)
    ensures |bits| == 8 * |data|
  {
    if data == [] then [] else ByteBits(data[0]) + Bits(data[1..])
  }

  function Checksum(data: seq<byte>): Reg { FoldBits(Ones(), Bits(data)) }

  /** A 16-bit word and the register it stands for, half by half. */
  predicate Rep(w: bv16, r: Reg) { RepHigh(w, r) && RepLow(w, r) }

  predicate RepHigh(w: bv16, r: Reg) {
    && (w & 0x8000 != 0) == r[0] && (w & 0x4000 != 0) == r[1]
    && (w & 0x2000 != 0) == r[2] && (w & 0x1000 != 0) == r[3]
    && (w & 0x0800 != 0) == r[4] && (w & 0x0400 != 0) == r[5]
    && (w & 0x0200 != 0) == r[6] && (w & 0x0100 != 0) == r[7]
  }

  predicate RepLow(w: bv16, r: Reg) {
    && (w & 0x0080 != 0) == r[8] && (w & 0x0040 != 0) == r[9]
    && (w & 0x0020 != 0) == r[10] && (w & 0x0010 != 0) == r[11]
    && (w & 0x0008 != 0) == r[12] && (w & 0x0004 != 0) == r[13]
    && (w & 0x0002 != 0) == r[14] && (w & 0x0001 != 0) == r[15]
  }

  /** `v` is `w` with a byte xored into its upper half, bit by bit. */
  predicate ByteXored(w: bv16, b: bv16, v: bv16) {
    && (v & 0x8000 != 0) == ((w & 0x8000 != 0) != (b & 0x80 != 0))
    && (v & 0x4000 != 0) == ((w & 0x4000 != 0) != (b & 0x40 != 0))
    && (v & 0x2000 != 0) == ((w & 0x2000 != 0) != (b & 0x20 != 0))
    && (v & 0x1000 != 0) == ((w & 0x1000 != 0) != (b & 0x10 != 0))
    && (v & 0x0800 != 0) == ((w & 0x0800 != 0) != (b & 0x08 != 0))
    && (v & 0x0400 != 0) == ((w & 0x0400 != 0) != (b & 0x04 != 0))
    && (v & 0x0200 != 0) == ((w & 0x0200 != 0) != (b & 0x02 != 0))
    && (v & 0x0100 != 0) == ((w & 0x0100 != 0) != (b & 0x01 != 0))
    && (v & 0x0080 != 0) == (w & 0x0080 != 0)
    && (v & 0x0040 != 0) == (w & 0x0040 != 0)
    && (v & 0x0020 != 0) == (w & 0x0020 != 0)
    && (v & 0x0010 != 0) == (w & 0x0010 != 0)
    && (v & 0x0008 != 0) == (w & 0x0008 != 0)
    && (v & 0x0004 != 0) == (w & 0x0004 != 0)
    && (v & 0x0002 != 0) == (w & 0x0002 != 0)
    && (v & 0x0001 != 0) == (w & 0x0001 != 0)
  }

  /** `v` is `w` after one shift step, bit by bit. */
  predicate Shifted(w: bv16, v: bv16) {
    && (v & 0x8000 != 0) == (w & 0x4000 != 0)
    && (v & 0x4000 != 0) == (w & 0x2000 != 0)
    && (v & 0x2000 != 0) == (w & 0x1000 != 0)
    && (v & 0x1000 != 0) == ((w & 0x0800 != 0) != (w & 0x8000 != 0))
    && (v & 0x0800 != 0) == (w & 0x0400 != 0)
    && (v & 0x0400 != 0) == (w & 0x0200 != 0)
    && (v & 0x0200 != 0) == (w & 0x0100 != 0)
    && (v & 0x0100 != 0) == (w & 0x0080 != 0)
    && (v & 0x0080 != 0) == (w & 0x0040 != 0)
    && (v & 0x0040 != 0) == (w & 0x0020 != 0)
    && (v & 0x0020 != 0) == ((w & 0x0010 != 0) != (w & 0x8000 != 0))
    && (v & 0x0010 != 0) == (w & 0x0008 != 0)
    && (v & 0x0008 != 0) == (w & 0x0004 != 0)
    && (v & 0x0004 != 0) == (w & 0x0002 != 0)
    && (v & 0x0002 != 0) == (w & 0x0001 != 0)
    && (v & 0x0001 != 0) == (w & 0x8000 != 0)
  }

  // Machine words against bits, and bits against registers, each on its own.

  lemma XorByteBitwise(w: bv16, b: byte, v: bv16)
    requires v == w ^ ((b as bv16) << 8)
    ensures ByteXored(w, b as bv16, v)
  {
    ByteFits(b);
    XorWordBitwise(w, b as bv16, v);
  }

  lemma ByteFits(b: byte)
    ensures b as bv16 < 0x100
  {}

  lemma XorWordBitwise(w: bv16, b: bv16, v: bv16)
    requires b < 0x100 && v == w ^ (b << 8)
    ensures ByteXored(w, b, v)
  {}

  lemma ShiftBitwise(w: bv16)
    ensures w & 0x8000 != 0 ==> Shifted(w, (w << 1) ^ 0x1021)
    ensures w & 0x8000 == 0 ==> Shifted(w, w << 1)
  {}

  lemma RepXorByte(w: bv16, r: Reg, b: byte, v: bv16, s: Reg)
    requires Rep(w, r) && ByteXored(w, b as bv16, v)
    requires s == Xor(r, ByteBits(b) + Zeros(8))
    ensures Rep(v, s)
  {
    RepXorByteHigh(w, r, b, v, s);
    RepXorByteLow(w, r, b, v, s);
  }

  lemma RepXorByteHigh(w: bv16, r: Reg, b: byte, v: bv16, s: Reg)
    requires RepHigh(w, r) && ByteXored(w, b as bv16, v)
    requires s == Xor(r, ByteBits(b) + Zeros(8))
    ensures RepHigh(v, s)
  {
    var bits := ByteBits(b);
    assert forall i :: 0 <= i < 8 ==> s[i] == (r[i] != bits[i]);
  }

  lemma RepXorByteLow(w: bv16, r: Reg, b: byte, v: bv16, s: Reg)
    requires RepLow(w, r) && ByteXored(w, b as bv16, v)
    requires s == Xor(r, ByteBits(b) + Zeros(8))
    ensures RepLow(v, s)
  {}

  lemma RepShift(w: bv16, r: Reg, v: bv16, s: Reg)
    requires Rep(w, r) && Shifted(w, v)
    requires s == Shift(r)
    ensures Rep(v, s)
  {
    RepShiftHigh(w, r, v, s);
    RepShiftLow(w, r, v, s);
  }

  lemma RepShiftHigh(w: bv16, r: Reg, v: bv16, s: Reg)
    requires Rep(w, r) && Shifted(w, v)
    requires s == Shift(r)
    ensures RepHigh(v, s)
  {}

  lemma RepShiftLow(w: bv16, r: Reg, v: bv16, s: Reg)
    requires Rep(w, r) && Shifted(w, v)
    requires s == Shift(r)
    ensures RepLow(v, s)
  {}

  lemma LoadByte(w: bv16, r: Reg, b: byte, v: bv16, s: Reg)
    requires Rep(w, r) && v == w ^ ((b as bv16) << 8)
    requires s == Xor(r, ByteBits(b) + Zeros(8))
    ensures Rep(v, s)
  {
    XorByteBitwise(w, b, v);
    RepXorByte(w, r, b, v, s);
  }

  lemma StepWord(w: bv16, r: Reg, v: bv16, s: Reg)
    requires Rep(w, r) && s == Shift(r)
    requires v == if w & 0x8000 != 0 then (w << 1) ^ 0x1021 else w << 1
    ensures Rep(v, s)
  {
    ShiftBitwise(w);
    RepShift(w, r, v, s);
  }

  lemma RepUnique(w: bv16, v: bv16, r: Reg)
    requires Rep(w, r) && Rep(v, r)
    ensures w == v
  {}

  lemma AddBitWithRest(r: Reg, bit: bool, rest: seq<bool>)
    requires |rest| == 15
    ensures Shift(Xor(r, [bit] + rest)) == Xor(AddBit(r, bit), rest + [false])
  {}

  lemma {:induction false} FoldBitsConcat(r: Reg, a: seq<bool>, b: seq<bool>)
    ensures FoldBits(r, a + b) == FoldBits(FoldBits(r, a), b)
    decreases a
  {
    if a == [] {
      assert a + b == b;
    } else {
      assert (a + b)[1..] == a[1..] + b;
      FoldBitsConcat(AddBit(r, a[0]), a[1..], b);
    }
  }

  lemma FoldOneMore(r: Reg, bits: seq<bool>, j: nat)
    requires j < |bits|
    ensures FoldBits(r, bits[..j + 1]) == AddBit(FoldBits(r, bits[..j]), bits[j])
  {
    assert bits[..j + 1] == bits[..j] + [bits[j]];
    FoldBitsConcat(r, bits[..j], [bits[j]]);
  }

  /** The register in the middle of a byte: `j` bits taken in, the rest xored in
      ahead. */
  function Midway(r: Reg, bits: seq<bool>, j: nat): Reg
    requires |bits| == 8 && j <= 8
  {
    Xor(FoldBits(r, bits[..j]), bits[j..] + Zeros(8 + j))
  }

  /** The checksum routine: nested loops over one 16-bit register. */
  method CRC16(data: seq<byte>) returns (crc: bv16)
    ensures Rep(crc, Checksum(data))
  {
    crc := 0xFFFF;
    ghost var done := Ones();
    for i := 0 to |data|
      invariant Rep(crc, done)
      invariant FoldBits(done, Bits(data[i..])) == Checksum(data)
    {
      ghost var before, bits := done, ByteBits(data[i]);
      crc := XorStep(crc, before, data[i]);
      for j := 0 to 8
        invariant Rep(crc, Midway(before, bits, j))
      {
        StepOfByte(before, bits, j);
        crc := ShiftStep(crc, Midway(before, bits, j));
      }
      EndOfByte(before, data, i);
      done := Midway(before, bits, 8);
    }
  }

  /** The byte goes into the upper half of the register. */
  method XorStep(crc: bv16, ghost before: Reg, b: byte) returns (next: bv16)
    requires Rep(crc, before)
    ensures Rep(next, Midway(before, ByteBits(b), 0))
  {
    next := crc ^ ((b as bv16) << 8);
    var bits := ByteBits(b);
    assert bits[..0] == [] && bits[0..] == bits;
    LoadByte(crc, before, b, next, Midway(before, bits, 0));
  }

  /** One step of the inner loop. */
  method ShiftStep(crc: bv16, ghost word: Reg) returns (next: bv16)
    requires Rep(crc, word)
    ensures Rep(next, Shift(word))
  {
    if crc & 0x8000 != 0 {
      next := (crc << 1) ^ 0x1021;
    } else {
      next := crc << 1;
    }
    StepWord(crc, word, next, Shift(word));
  }

  lemma EndOfByte(r: Reg, data: seq<byte>, i: nat)
    requires i < |data|
    ensures FoldBits(Midway(r, ByteBits(data[i]), 8), Bits(data[i + 1..])) == FoldBits(r, Bits(data[i..]))
  {
    var bits := ByteBits(data[i]);
    assert bits[..8] == bits;
    assert Xor(FoldBits(r, bits), bits[8..] + Zeros(16)) == FoldBits(r, bits);
    assert data[i..][1..] == data[i + 1..];
    FoldBitsConcat(r, bits, Bits(data[i + 1..]));
  }

  lemma StepOfByte(r: Reg, bits: seq<bool>, j: nat)
    requires |bits| == 8 && j < 8
    ensures Shift(Midway(r, bits, j)) == Midway(r, bits, j + 1)
  {
    var rest := bits[j + 1..] + Zeros(8 + j);
    assert bits[j..] + Zeros(8 + j) == [bits[j]] + rest;
    assert rest + [false] == bits[j + 1..] + Zeros(9 + j);
    FoldOneMore(r, bits, j);
    AddBitWithRest(FoldBits(r, bits[..j]), bits[j], rest);
  }

  // ---------------------------------------------------- error detection

  function Difference(x: seq<bool>, y: seq<bool>): (d: seq<bool>)
    requires |x| == |y|
  {
    seq(|x|, i requires 0 <= i < |x| => x[i] != y[i])
  }

  /** The difference of two checksums depends on the difference of the
      messages only. */
  lemma {:induction false} FoldIsLinear(r: Reg, s: Reg, x: seq<bool>, y: seq<bool>)
    requires |x| == |y|
    ensures Xor(FoldBits(r, x), FoldBits(s, y)) == FoldBits(Xor(r, s), Difference(x, y))
    decreases x
  {
    if x != [] {
      assert Difference(x, y)[1..] == Difference(x[1..], y[1..]);
      assert Xor(AddBit(r, x[0]), AddBit(s, y[0])) == AddBit(Xor(r, s), x[0] != y[0]);
      FoldIsLinear(AddBit(r, x[0]), AddBit(s, y[0]), x[1..], y[1..]);
    }
  }

  /** The shift step loses nothing. */
  lemma ShiftInjective(x: Reg, y: Reg)
    requires Shift(x) == Shift(y)
    ensures x == y
  {
    var sx, sy := Shift(x), Shift(y);
    assert sx[15] == x[0] && sy[15] == y[0];
    forall i | 1 <= i < 16
      ensures x[i] == y[i]
    {
      assert sx[i - 1] == (x[i] != (x[0] && Tap(i - 1)));
      assert sy[i - 1] == (y[i] != (y[0] && Tap(i - 1)));
    }
  }

  lemma {:induction false} ShiftsInjective(x: Reg, y: Reg, n: nat)
    requires Shifts(x, n) == Shifts(y, n)
    ensures x == y
    decreases n
  {
    if n > 0 {
      ShiftsInjective(Shift(x), Shift(y), n - 1);
      ShiftInjective(x, y);
    }
  }

  /** Feeding up to 16 bits one by one is the same as xoring them in at once
      and then shifting. */
  lemma {:induction false} WordAtOnce(r: Reg, e: seq<bool>)
    requires |e| <= 16
    ensures FoldBits(r, e) == Shifts(Xor(r, e + Zeros(16 - |e|)), |e|)
    decreases e
  {
    if e == [] {
      assert Xor(r, e + Zeros(16)) == r;
    } else {
      var rest := e[1..] + Zeros(16 - |e|);
      assert e + Zeros(16 - |e|) == [e[0]] + rest;
      assert rest + [false] == e[1..] + Zeros(16 - |e[1..]|);
      AddBitWithRest(r, e[0], rest);
      WordAtOnce(AddBit(r, e[0]), e[1..]);
    }
  }

  lemma {:induction false} ZeroBitsOnlyShift(r: Reg, z: seq<bool>)
    requires true !in z
    ensures FoldBits(r, z) == Shifts(r, |z|)
    decreases z
  {
    if z != [] {
      assert !z[0] && r[0 := r[0]] == r;
      ZeroBitsOnlyShift(Shift(r), z[1..]);
    }
  }

  lemma {:induction false} ZeroStaysZero(n: nat)
    ensures Shifts(Zeros(16), n) == Zeros(16)
  {
    if n > 0 {
      assert Shift(Zeros(16)) == Zeros(16);
      ZeroStaysZero(n - 1);
    }
  }

  ghost predicate ConfinedTo(d: seq<bool>, p: int, len: nat) {
    forall i :: 0 <= i < |d| && d[i] ==> p <= i < p + len
  }

  lemma XorSelf(x: Reg)
    ensures Xor(x, x) == Zeros(16)
  {}

  lemma NonzeroStaysNonzero(r: Reg, n: nat)
    requires r != Zeros(16)
    ensures Shifts(r, n) != Zeros(16)
  {
    ZeroStaysZero(n);
    if Shifts(r, n) == Zeros(16) {
      ShiftsInjective(r, Zeros(16), n);
    }
  }

  /** A pattern of at most 16 bits led by a one never divides to zero. */
  lemma ShortPatternLeavesResidue(e: seq<bool>)
    requires 0 < |e| <= 16 && e[0]
    ensures FoldBits(Zeros(16), e) != Zeros(16)
  {
    var word := e + Zeros(16 - |e|);
    WordAtOnce(Zeros(16), e);
    assert Xor(Zeros(16), word) == word;
    assert word[0] && !Zeros(16)[0];
    NonzeroStaysNonzero(word, |e|);
  }

  lemma NothingAfterTheWindow(d: seq<bool>, p: int, f: nat)
    requires f < |d| && d[f] && ConfinedTo(d, p, 16)
    ensures f + 16 <= |d| ==> true !in d[f + 16..]
  {
    if f + 16 <= |d| {
      var t := d[f + 16..];
      forall i | 0 <= i < |t| ensures !t[i] { assert t[i] == d[f + 16 + i]; }
    }
  }

  /** A nonzero pattern within 16 consecutive bits never divides to zero. */
  lemma BurstLeavesResidue(d: seq<bool>, p: int)
    requires true in d && ConfinedTo(d, p, 16)
    ensures FoldBits(Zeros(16), d) != Zeros(16)
  {
    var f := FirstTrue(d);
    var m := if |d| - f < 16 then |d| - f else 16;
    var z, e, t := d[..f], d[f..f + m], d[f + m..];
    NothingAfterTheWindow(d, p, f);
    ShortPatternLeavesResidue(e);
    ZeroBitsOnlyShift(Zeros(16), z);
    ZeroStaysZero(f);
    assert d == z + (e + t);
    FoldBitsConcat(Zeros(16), z, e + t);
    FoldBitsConcat(Zeros(16), e, t);
    ZeroBitsOnlyShift(FoldBits(Zeros(16), e), t);
    NonzeroStaysNonzero(FoldBits(Zeros(16), e), |t|);
  }

  function FirstTrue(d: seq<bool>): (f: nat)
    requires true in d
    ensures f < |d| && d[f] && true !in d[..f]
  {
    if d[0] then 0 else FirstTrue(d[1..]) + 1
  }

  lemma {:induction false} BitsDeterminesData(a: seq<byte>, b: seq<byte>)
    requires |a| == |b| && Bits(a) == Bits(b)
    ensures a == b
  {
    if a != [] {
      assert ByteBits(a[0]) == Bits(a)[..8] && ByteBits(b[0]) == Bits(b)[..8];
      assert Bits(a[1..]) == Bits(a)[8..] && Bits(b[1..]) == Bits(b)[8..];
      ByteBitsInjective(a[0], b[0]);
      BitsDeterminesData(a[1..], b[1..]);
    }
  }

  lemma ByteBitsInjective(x: byte, y: byte)
    requires ByteBits(x) == ByteBits(y)
    ensures x == y
  {
    SameDigits(x, y);
    BinaryExpansion(x);
    BinaryExpansion(y);
  }

  lemma SameDigits(x: byte, y: byte)
    requires ByteBits(x) == ByteBits(y)
    ensures x / 0x80 % 2 == y / 0x80 % 2
    ensures x / 0x40 % 2 == y / 0x40 % 2
    ensures x / 0x20 % 2 == y / 0x20 % 2
    ensures x / 0x10 % 2 == y / 0x10 % 2
    ensures x / 0x08 % 2 == y / 0x08 % 2
    ensures x / 0x04 % 2 == y / 0x04 % 2
    ensures x / 0x02 % 2 == y / 0x02 % 2
    ensures x / 0x01 % 2 == y / 0x01 % 2
  {
    var p, q := ByteBits(x), ByteBits(y);
    assert p[0] == q[0] && p[1] == q[1] && p[2] == q[2] && p[3] == q[3];
    assert p[4] == q[4] && p[5] == q[5] && p[6] == q[6] && p[7] == q[7];
    BitsOfWord(x);
    BitsOfWord(y);
  }

  lemma BitsOfWord(b: byte)
    ensures ((b as bv16) & 0x80 != 0) == (b / 0x80 % 2 == 1)
    ensures ((b as bv16) & 0x40 != 0) == (b / 0x40 % 2 == 1)
    ensures ((b as bv16) & 0x20 != 0) == (b / 0x20 % 2 == 1)
    ensures ((b as bv16) & 0x10 != 0) == (b / 0x10 % 2 == 1)
    ensures ((b as bv16) & 0x08 != 0) == (b / 0x08 % 2 == 1)
    ensures ((b as bv16) & 0x04 != 0) == (b / 0x04 % 2 == 1)
    ensures ((b as bv16) & 0x02 != 0) == (b / 0x02 % 2 == 1)
    ensures ((b as bv16) & 0x01 != 0) == (b / 0x01 % 2 == 1)
  {}

  lemma BinaryExpansion(x: byte)
    ensures x == 0x80 * (x / 0x80 % 2) + 0x40 * (x / 0x40 % 2) + 0x20 * (x / 0x20 % 2)
               + 0x10 * (x / 0x10 % 2) + 0x08 * (x / 0x08 % 2) + 0x04 * (x / 0x04 % 2)
               + 0x02 * (x / 0x02 % 2) + x / 0x01 % 2
  {
    Halve(x, 0x01, 0x02);
    Halve(x, 0x02, 0x04);
    Halve(x, 0x04, 0x08);
    Halve(x, 0x08, 0x10);
    Halve(x, 0x10, 0x20);
    Halve(x, 0x20, 0x40);
    Halve(x, 0x40, 0x80);
  }

  lemma Halve(x: nat, d: nat, d2: nat)
    requires 0 < d && d2 == 2 * d
    ensures x / d == 2 * (x / d2) + x / d % 2
  {
    var q := x / d;
    var h, e := q / 2, q % 2;
    assert x == d * q + x % d;
    assert d * q == d2 * h + d * e by { assert q == 2 * h + e; }
    assert 0 <= d * e + x % d < d2 by { assert e == 0 || e == 1; }
    Arith.DivModUnique(x, d2, h, d * e + x % d);
  }

  /** Two messages of one length that differ, and only within 16 consecutive
      bits, never share a checksum. */
  lemma BurstDetected(a: seq<byte>, b: seq<byte>, p: int)
    requires |a| == |b| && a != b
    requires ConfinedTo(Difference(Bits(a), Bits(b)), p, 16)
    ensures Checksum(a) != Checksum(b)
  {
    var x, y := Bits(a), Bits(b);
    var d := Difference(x, y);
    if true !in d {
      forall i | 0 <= i < |x|
        ensures x[i] == y[i]
      {
        assert !d[i];
      }
      BitsDeterminesData(a, b);
    } else {
      FoldIsLinear(Ones(), Ones(), x, y);
      BurstLeavesResidue(d, p);
      XorSelf(Ones());
      XorSelf(Checksum(a));
    }
  }

  // ---------------------------------------------------- odd errors

  /** Whether an odd number of bits is set. */
  function Odd(bits: seq<bool>): bool {
    if bits == [] then false else bits[0] != Odd(bits[1..])
  }

  /** x + 1 divides the generator, so shifting keeps the parity. */
  lemma ShiftKeepsParity(r: Reg)
    ensures Odd(Shift(r)) == Odd(r)
  {
    var s := Shift(r);
    OddOfSixteen(r);
    OddOfSixteen(s);
  }

  lemma OddFrom(r: Reg, i: nat)
    requires i < 16
    ensures Odd(r[i..]) == (r[i] != Odd(r[i + 1..]))
  {
    assert r[i..][1..] == r[i + 1..];
  }

  lemma OddOfSixteen(r: Reg)
    ensures Odd(r) == (r[0] != (r[1] != (r[2] != (r[3] != (r[4] != (r[5] != (r[6] != (r[7]
      != (r[8] != (r[9] != (r[10] != (r[11] != (r[12] != (r[13] != (r[14] != r[15])))))))))))))))
  {
    assert r[0..] == r && r[16..] == [];
    forall i: nat | i < 16
      ensures Odd(r[i..]) == (r[i] != Odd(r[i + 1..]))
    {
      OddFrom(r, i);
    }
    assert Odd(r[12..]) == (r[12] != (r[13] != (r[14] != r[15])));
    assert Odd(r[8..]) == (r[8] != (r[9] != (r[10] != (r[11] != Odd(r[12..])))));
    assert Odd(r[4..]) == (r[4] != (r[5] != (r[6] != (r[7] != Odd(r[8..])))));
    assert Odd(r[0..]) == (r[0] != (r[1] != (r[2] != (r[3] != Odd(r[4..])))));
  }

  lemma {:induction false} ResidueHasParityOfMessage(r: Reg, d: seq<bool>)
    ensures Odd(FoldBits(r, d)) == (Odd(r) != Odd(d))
    decreases d
  {
    if d != [] {
      var r' := r[0 := r[0] != d[0]];
      assert r'[1..] == r[1..];
      ShiftKeepsParity(r');
      ResidueHasParityOfMessage(Shift(r'), d[1..]);
    }
  }

  /** Any odd number of wrong bits, anywhere in a message of any length,
      changes the checksum. */
  lemma OddErrorsDetected(a: seq<byte>, b: seq<byte>)
    requires |a| == |b|
    requires Odd(Difference(Bits(a), Bits(b)))
    ensures Checksum(a) != Checksum(b)
  {
    FoldIsLinear(Ones(), Ones(), Bits(a), Bits(b));
    ResidueHasParityOfMessage(Xor(Ones(), Ones()), Difference(Bits(a), Bits(b)));
    XorSelf(Ones());
    XorSelf(Checksum(a));
    OddOfSixteen(Zeros(16));
  }

  // ---------------------------------------------------- on the wire

  /** The two trailer bytes, low byte first, carry the checksum. */
  predicate Carries(low: byte, high: byte, r: Reg) {
    ByteBits(high) + ByteBits(low) == r
  }

  lemma HalfAsByte(x: bv16, b: byte)
    requires x < 0x100 && b == x as int
    ensures b as bv16 == x
  {}

  lemma LowBits(w: bv16, r: Reg, x: bv16)
    requires RepLow(w, r) && x == w & 0xFF
    ensures x < 0x100 && WordBits(x) == r[8..]
  {}

  lemma HighBits(w: bv16, r: Reg, x: bv16)
    requires RepHigh(w, r) && x == w >> 8
    ensures x < 0x100 && WordBits(x) == r[..8]
  {}

  lemma ByteOfHalf(x: bv16, b: byte, half: seq<bool>)
    requires x < 0x100 && b == x as int && WordBits(x) == half
    ensures ByteBits(b) == half
  {
    HalfAsByte(x, b);
  }

  /** A half of the register value as a byte. */
  method ByteOf(x: bv16, ghost half: seq<bool>) returns (b: byte)
    requires x < 0x100 && WordBits(x) == half
    ensures ByteBits(b) == half
  {
    b := x as int;
    ByteOfHalf(x, b, half);
  }

  /** Splitting a register value into bytes, as the sender does. */
  method Split(w: bv16, ghost r: Reg) returns (low: byte, high: byte)
    requires Rep(w, r)
    ensures Carries(low, high, r)
  {
    var x, y := w & 0xFF, w >> 8;
    LowBits(w, r, x);
    HighBits(w, r, y);
    low := ByteOf(x, r[8..]);
    high := ByteOf(y, r[..8]);
    assert r == r[..8] + r[8..];
  }

  /** Joining the bytes again and comparing words, as the receiver does. */
  lemma JoinComparesRegisters(w: bv16, r: Reg, low: byte, high: byte, got: bv16)
    requires Rep(w, r)
    requires got == (low as bv16) | ((high as bv16) << 8)
    ensures w == got <==> Carries(low, high, r)
  {
    ByteFits(low);
    ByteFits(high);
    var q := ByteBits(high) + ByteBits(low);
    JoinedBits(low as bv16, high as bv16, got, q);
    if w == got {
      RepDetermines(w, r, q);
    } else if q == r {
      RepUnique(w, got, r);
    }
  }

  /** `w` has the bits of `high` above those of `low`. */
  predicate Joined(low: bv16, high: bv16, w: bv16) {
    && (w & 0x8000 != 0) == (high & 0x80 != 0) && (w & 0x0080 != 0) == (low & 0x80 != 0)
    && (w & 0x4000 != 0) == (high & 0x40 != 0) && (w & 0x0040 != 0) == (low & 0x40 != 0)
    && (w & 0x2000 != 0) == (high & 0x20 != 0) && (w & 0x0020 != 0) == (low & 0x20 != 0)
    && (w & 0x1000 != 0) == (high & 0x10 != 0) && (w & 0x0010 != 0) == (low & 0x10 != 0)
    && (w & 0x0800 != 0) == (high & 0x08 != 0) && (w & 0x0008 != 0) == (low & 0x08 != 0)
    && (w & 0x0400 != 0) == (high & 0x04 != 0) && (w & 0x0004 != 0) == (low & 0x04 != 0)
    && (w & 0x0200 != 0) == (high & 0x02 != 0) && (w & 0x0002 != 0) == (low & 0x02 != 0)
    && (w & 0x0100 != 0) == (high & 0x01 != 0) && (w & 0x0001 != 0) == (low & 0x01 != 0)
  }

  lemma JoinBitwise(low: bv16, high: bv16, w: bv16)
    requires low < 0x100 && high < 0x100 && w == low | (high << 8)
    ensures Joined(low, high, w)
  {}

  lemma JoinedBits(low: bv16, high: bv16, w: bv16, r: Reg)
    requires low < 0x100 && high < 0x100 && w == low | (high << 8)
    requires r == WordBits(high) + WordBits(low)
    ensures Rep(w, r)
  {
    JoinBitwise(low, high, w);
    JoinedHigh(low, high, w, r);
    JoinedLow(low, high, w, r);
  }

  lemma JoinedHigh(low: bv16, high: bv16, w: bv16, r: Reg)
    requires Joined(low, high, w) && r == WordBits(high) + WordBits(low)
    ensures RepHigh(w, r)
  {
    var bits := WordBits(high);
    assert forall i :: 0 <= i < 8 ==> r[i] == bits[i];
  }

  lemma JoinedLow(low: bv16, high: bv16, w: bv16, r: Reg)
    requires Joined(low, high, w) && r == WordBits(high) + WordBits(low)
    ensures RepLow(w, r)
  {
    var bits := WordBits(low);
    assert forall i :: 0 <= i < 8 ==> r[i + 8] == bits[i];
  }

  lemma RepDetermines(w: bv16, r: Reg, q: Reg)
    requires Rep(w, r) && Rep(w, q)
    ensures r == q
  {}
}
