/** Where the checksum starts: from all ones, so that leading zeros count. */
module CrcStart {
  import opened Bytes
  import opened Crc
  import opened CrcDistance

  /** A message of zero bytes. */
  function ZeroBytes(n: nat): seq<byte> { seq(n, _ => 0) }

  lemma {:induction false} BitsOfZeros(n: nat)
    ensures Bits(ZeroBytes(n)) == Zeros(8 * n)
  {
    if n > 0 {
      BitsOfZeros(n - 1);
      assert ZeroBytes(n)[1..] == ZeroBytes(n - 1);
      assert ByteBits(0) == Zeros(8);
      assert Zeros(8) + Zeros(8 * (n - 1)) == Zeros(8 * n);
    }
  }

  lemma {:induction false} BitsConcat(a: seq<byte>, b: seq<byte>)
    ensures Bits(a + b) == Bits(a) + Bits(b)
  {
    if a == [] {
      assert a + b == b;
    } else {
      assert (a + b)[1..] == a[1..] + b;
      BitsConcat(a[1..], b);
    }
  }

  /** No message of zeros, of any length, has the checksum zero. */
  lemma ZeroMessageIsSeen(n: nat)
    ensures Checksum(ZeroBytes(n)) != Zeros(16)
  {
    BitsOfZeros(n);
    ZeroBitsOnlyShift(Ones(), Zeros(8 * n));
    assert Ones()[0];
    NonzeroStaysNonzero(Ones(), 8 * n);
  }

  // ------------------------------------------------------------ leading zeros

  lemma {:induction false} FoldInjective(r: Reg, s: Reg, bits: seq<bool>)
    requires FoldBits(r, bits) == FoldBits(s, bits)
    ensures r == s
    decreases bits
  {
    if bits != [] {
      FoldInjective(AddBit(r, bits[0]), AddBit(s, bits[0]), bits[1..]);
      ShiftInjective(r[0 := r[0] != bits[0]], s[0 := s[0] != bits[0]]);
      forall i | 0 <= i < 16
        ensures r[i] == s[i]
      {
        assert r[0 := r[0] != bits[0]][i] == s[0 := s[0] != bits[0]][i];
      }
    }
  }

  lemma OnesWord()
    ensures RegOf(Word(NF, NF, NF, NF)) == Ones()
  {}

  lemma OnesMoved(n: nat, w: Word, c: Word)
    requires IsPower(n, w) && Product(w, Word(NF, NF, NF, NF)) == c && c != Word(NF, NF, NF, NF)
    ensures !Returns(Ones(), n)
  {
    OnesWord();
    ProductIsHorner(w, Word(NF, NF, NF, NF));
    ProductShifts(Ones(), n);
    WordDetermined(c, Word(NF, NF, NF, NF));
  }

  lemma WordDetermined(v: Word, w: Word)
    requires v != w
    ensures RegOf(v) != RegOf(w)
  {
    DigitsOf(v);
    DigitsOf(w);
  }

  lemma OnesMovedBy217()
    ensures !Returns(Ones(), 217)
  {
    Power217();
    OnesMoved(217, Word(N4, N8, NE, N3), Word(NF, N0, NA, N6));
  }

  lemma OnesMovedBy1057()
    ensures !Returns(Ones(), 1057)
  {
    Power1057();
    OnesMoved(1057, Word(NF, N2, NA, NF), Word(NB, N1, N1, N8));
  }

  lemma OnesMovedBy4681()
    ensures !Returns(Ones(), 4681)
  {
    Power4681();
    OnesMoved(4681, Word(N2, NC, N4, N2), Word(NF, N2, ND, NA));
  }

  /** Leading zero bytes change the checksum of every message, unless the number of
      their bits is a multiple of 32767. */
  lemma LeadingZerosExactly(n: nat, data: seq<byte>)
    ensures Checksum(ZeroBytes(n) + data) == Checksum(data) <==> 8 * n % PERIOD == 0
  {
    BitsOfZeros(n);
    BitsConcat(ZeroBytes(n), data);
    FoldBitsConcat(Ones(), Zeros(8 * n), Bits(data));
    ZeroBitsOnlyShift(Ones(), Zeros(8 * n));
    if Checksum(ZeroBytes(n) + data) == Checksum(data) {
      FoldInjective(Shifts(Ones(), 8 * n), Ones(), Bits(data));
    }
    OnesMovedBy217();
    OnesMovedBy1057();
    OnesMovedBy4681();
    ReturnsExactly(Ones(), 8 * n);
  }

  // ------------------------------------------------------------ the check value

  function TakeBit(w: Word, bit: bool): Word {
    ShiftWord(Word(Digit(w.p.a != bit, w.p.b, w.p.c, w.p.d), w.q, w.r, w.s))
  }

  function TakeByte(w: Word, m: Digit, n: Digit): Word {
    var v := TakeBit(TakeBit(TakeBit(TakeBit(w, m.a), m.b), m.c), m.d);
    TakeBit(TakeBit(TakeBit(TakeBit(v, n.a), n.b), n.c), n.d)
  }

  lemma TakeBitAdds(w: Word, bit: bool)
    ensures RegOf(TakeBit(w, bit)) == AddBit(RegOf(w), bit)
  {
    var v := Word(Digit(w.p.a != bit, w.p.b, w.p.c, w.p.d), w.q, w.r, w.s);
    ShiftWordShifts(v);
    assert RegOf(v) == RegOf(w)[0 := RegOf(w)[0] != bit];
  }

  lemma FoldFirst(w: Word, bits: seq<bool>, j: nat)
    requires j < |bits|
    ensures FoldBits(RegOf(w), bits[j..]) == FoldBits(RegOf(TakeBit(w, bits[j])), bits[j + 1..])
  {
    TakeBitAdds(w, bits[j]);
    assert bits[j..][1..] == bits[j + 1..];
  }

  /** Four bits at once. */
  lemma FoldDigit(w: Word, n: Digit, bits: seq<bool>, j: nat)
    requires j + 4 <= |bits|
    requires bits[j] == n.a && bits[j + 1] == n.b && bits[j + 2] == n.c && bits[j + 3] == n.d
    ensures FoldBits(RegOf(w), bits[j..])
         == FoldBits(RegOf(TakeBit(TakeBit(TakeBit(TakeBit(w, n.a), n.b), n.c), n.d)), bits[j + 4..])
  {
    var t1 := TakeBit(w, n.a);
    var t2 := TakeBit(t1, n.b);
    FoldFirst(w, bits, j);
    FoldFirst(t1, bits, j + 1);
    FoldFirst(t2, bits, j + 2);
    FoldFirst(TakeBit(t2, n.c), bits, j + 3);
  }

  function DigitBits(n: Digit): seq<bool> { [n.a, n.b, n.c, n.d] }

  lemma FoldByte(w: Word, m: Digit, n: Digit, rest: seq<bool>)
    ensures FoldBits(RegOf(w), DigitBits(m) + DigitBits(n) + rest) == FoldBits(RegOf(TakeByte(w, m, n)), rest)
  {
    var bits := DigitBits(m) + DigitBits(n) + rest;
    FoldDigit(w, m, bits, 0);
    FoldDigit(TakeBit(TakeBit(TakeBit(TakeBit(w, m.a), m.b), m.c), m.d), n, bits, 4);
    assert bits[0..] == bits && bits[8..] == rest;
  }

  /** One more byte, read from the front. */
  lemma OneByte(w: Word, b: byte, m: Digit, n: Digit, rest: seq<byte>)
    requires ByteBits(b) == DigitBits(m) + DigitBits(n)
    ensures FoldBits(RegOf(w), Bits([b] + rest)) == FoldBits(RegOf(TakeByte(w, m, n)), Bits(rest))
  {
    assert ([b] + rest)[1..] == rest;
    FoldByte(w, m, n, Bits(rest));
  }

  /** The last hexadecimal digit of the characters 1 to 9. */
  function LastDigit(k: nat): Digit {
    if k == 1 then N1 else if k == 2 then N2 else if k == 3 then N3 else if k == 4 then N4 else if k == 5 then N5
    else if k == 6 then N6 else if k == 7 then N7 else if k == 8 then N8 else N9
  }

  lemma CharacterBits(k: nat)
    requires 1 <= k <= 9
    ensures ByteBits(0x30 + k) == DigitBits(N3) + DigitBits(LastDigit(k))
  {
    if k <= 3 { LowCharacters(k); } else if k <= 6 { MiddleCharacters(k); } else { HighCharacters(k); }
  }

  lemma LowCharacters(k: nat)
    requires 1 <= k <= 3
    ensures ByteBits(0x30 + k) == DigitBits(N3) + DigitBits(LastDigit(k))
  {}

  lemma MiddleCharacters(k: nat)
    requires 4 <= k <= 6
    ensures ByteBits(0x30 + k) == DigitBits(N3) + DigitBits(LastDigit(k))
  {}

  lemma HighCharacters(k: nat)
    requires 7 <= k <= 9
    ensures ByteBits(0x30 + k) == DigitBits(N3) + DigitBits(LastDigit(k))
  {}

  /** The characters from `k` to 9. */
  function Text(k: nat): seq<byte>
    requires 1 <= k <= 10
    decreases 10 - k
  {
    if k == 10 then [] else [0x30 + k] + Text(k + 1)
  }

  /** The register ahead of character `k`. */
  function Ahead(k: nat): Word {
    if k == 1 then Word(NF, NF, NF, NF)
    else if k == 2 then Word(NC, N7, N8, N2)
    else if k == 3 then Word(N3, ND, NB, NA)
    else if k == 4 then Word(N5, NB, NC, NE)
    else if k == 5 then Word(N5, N3, N4, N9)
    else if k == 6 then Word(N4, N5, N6, N0)
    else if k == 7 then Word(N2, NE, NF, N4)
    else if k == 8 then Word(N7, N7, N1, N8)
    else if k == 9 then Word(NA, N1, N2, NB)
    else Word(N2, N9, NB, N1)
  }

  lemma Ahead1()
    ensures TakeByte(Word(NF, NF, NF, NF), N3, N1) == Word(NC, N7, N8, N2)
  {}

  lemma Ahead2()
    ensures TakeByte(Word(NC, N7, N8, N2), N3, N2) == Word(N3, ND, NB, NA)
  {}

  lemma Ahead3()
    ensures TakeByte(Word(N3, ND, NB, NA), N3, N3) == Word(N5, NB, NC, NE)
  {}

  lemma Ahead4()
    ensures TakeByte(Word(N5, NB, NC, NE), N3, N4) == Word(N5, N3, N4, N9)
  {}

  lemma Ahead5()
    ensures TakeByte(Word(N5, N3, N4, N9), N3, N5) == Word(N4, N5, N6, N0)
  {}

  lemma Ahead6()
    ensures TakeByte(Word(N4, N5, N6, N0), N3, N6) == Word(N2, NE, NF, N4)
  {}

  lemma Ahead7()
    ensures TakeByte(Word(N2, NE, NF, N4), N3, N7) == Word(N7, N7, N1, N8)
  {}

  lemma Ahead8()
    ensures TakeByte(Word(N7, N7, N1, N8), N3, N8) == Word(NA, N1, N2, NB)
  {}

  lemma Ahead9()
    ensures TakeByte(Word(NA, N1, N2, NB), N3, N9) == Word(N2, N9, NB, N1)
  {}

  lemma AheadOfNext(k: nat)
    requires 1 <= k <= 9
    ensures TakeByte(Ahead(k), N3, LastDigit(k)) == Ahead(k + 1)
  {
    match k {
      case 1 => Ahead1();
      case 2 => Ahead2();
      case 3 => Ahead3();
      case 4 => Ahead4();
      case 5 => Ahead5();
      case 6 => Ahead6();
      case 7 => Ahead7();
      case 8 => Ahead8();
      case _ => Ahead9();
    }
  }

  lemma {:induction false} ChecksFrom(k: nat)
    requires 1 <= k <= 10
    ensures FoldBits(RegOf(Ahead(k)), Bits(Text(k))) == RegOf(Ahead(10))
    decreases 10 - k
  {
    if k < 10 {
      CharacterBits(k);
      OneByte(Ahead(k), 0x30 + k, N3, LastDigit(k), Text(k + 1));
      AheadOfNext(k);
      ChecksFrom(k + 1);
    }
  }

  /** The standard check value: the checksum of the characters 1 to 9 is 0x29B1. */
  lemma CheckValue()
    ensures Checksum([0x31, 0x32, 0x33, 0x34, 0x35, 0x36, 0x37, 0x38, 0x39]) == RegOf(Word(N2, N9, NB, N1))
  {
    OnesWord();
    ChecksFrom(1);
    assert Text(8) == [0x38, 0x39];
    assert Text(6) == [0x36, 0x37, 0x38, 0x39];
    assert Text(4) == [0x34, 0x35, 0x36, 0x37, 0x38, 0x39];
    assert Text(2) == [0x32, 0x33, 0x34, 0x35, 0x36, 0x37, 0x38, 0x39];
  }
}
