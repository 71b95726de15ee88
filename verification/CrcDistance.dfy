/** How far apart two wrong bits may lie and still be detected: the period of the
    generator. Powers of x are computed by squaring machine words. */
module CrcDistance {
  import opened Bytes
  import opened Crc
  import Arith

  const PERIOD := 32767

  /** The register of the polynomial 1, and that of x^n. */
  function One(): Reg { Zeros(15) + [true] }

  function Power(n: nat): Reg { Shifts(One(), n) }

  // ------------------------------------------------------------ shifting is linear

  lemma ShiftIsLinear(x: Reg, y: Reg)
    ensures Shift(Xor(x, y)) == Xor(Shift(x), Shift(y))
  {}

  lemma {:induction false} ShiftsAreLinear(x: Reg, y: Reg, n: nat)
    ensures Shifts(Xor(x, y), n) == Xor(Shifts(x, n), Shifts(y, n))
    decreases n
  {
    if n > 0 {
      ShiftIsLinear(x, y);
      ShiftsAreLinear(Shift(x), Shift(y), n - 1);
    }
  }

  lemma {:induction false} ShiftsAdd(r: Reg, a: nat, b: nat)
    ensures Shifts(r, a + b) == Shifts(Shifts(r, a), b)
    decreases a
  {
    if a > 0 { ShiftsAdd(Shift(r), a - 1, b); }
  }

  lemma ShiftLast(r: Reg, n: nat)
    ensures Shifts(Shift(r), n) == Shift(Shifts(r, n))
  {
    ShiftsAdd(r, 1, n);
    ShiftsAdd(r, n, 1);
    assert Shifts(r, 1) == Shift(r) && Shifts(Shifts(r, n), 1) == Shift(Shifts(r, n));
  }

  // ------------------------------------------------------------ products

  /** `a` where the bit is set. */
  function Times(bit: bool, a: Reg): Reg { if bit then a else Zeros(16) }

  /** Horner's rule: the polynomial with these coefficients, times `a`, behind
      `acc`. */
  function Horner(acc: Reg, a: Reg, bits: seq<bool>): Reg
    decreases bits
  {
    if bits == [] then acc else Horner(Xor(Shift(acc), Times(bits[0], a)), a, bits[1..])
  }

  lemma ShiftsOfBit(bit: bool, n: nat)
    ensures Shifts(Times(bit, One()), n) == Times(bit, Power(n))
  {
    ZeroStaysZero(n);
  }

  /** Shifting every register on the way shifts the result. */
  lemma {:induction false} HornerShifts(acc: Reg, bits: seq<bool>, n: nat)
    ensures Shifts(Horner(acc, One(), bits), n) == Horner(Shifts(acc, n), Power(n), bits)
    decreases bits
  {
    if bits != [] {
      var bit := Times(bits[0], One());
      ShiftsAreLinear(Shift(acc), bit, n);
      ShiftLast(acc, n);
      ShiftsOfBit(bits[0], n);
      HornerShifts(Xor(Shift(acc), bit), bits[1..], n);
    }
  }

  /** Without overflow the bits simply move in. */
  lemma MovesIn(r: Reg, bit: bool)
    requires !r[0]
    ensures Xor(Shift(r), Times(bit, One())) == r[1..] + [bit]
  {}

  lemma {:induction false} HornerCollects(r: Reg, j: nat)
    requires j <= 16
    ensures Horner(Zeros(16 - j) + r[..j], One(), r[j..]) == r
    decreases 16 - j
  {
    if j == 16 {
      assert Zeros(0) + r[..16] == r && r[16..] == [];
    } else {
      var acc := Zeros(16 - j) + r[..j];
      MovesIn(acc, r[j]);
      assert acc[1..] + [r[j]] == Zeros(15 - j) + r[..j + 1];
      assert r[j..][1..] == r[j + 1..];
      HornerCollects(r, j + 1);
    }
  }

  /** A register shifted `n` times is its product with x^n. */
  lemma ProductShifts(r: Reg, n: nat)
    ensures Horner(Zeros(16), Power(n), r) == Shifts(r, n)
  {
    HornerCollects(r, 0);
    assert Zeros(16) + r[..0] == Zeros(16) && r[0..] == r;
    HornerShifts(Zeros(16), r, n);
    ZeroStaysZero(n);
  }

  // ------------------------------------------------------------ registers written out

  /** A register by its hexadecimal digits, so that products can be computed. */
  datatype Digit = Digit(a: bool, b: bool, c: bool, d: bool)

  datatype Word = Word(p: Digit, q: Digit, r: Digit, s: Digit)

  const N0 := Digit(false, false, false, false)
  const N1 := Digit(false, false, false, true)
  const N2 := Digit(false, false, true, false)
  const N3 := Digit(false, false, true, true)
  const N4 := Digit(false, true, false, false)
  const N5 := Digit(false, true, false, true)
  const N6 := Digit(false, true, true, false)
  const N7 := Digit(false, true, true, true)
  const N8 := Digit(true, false, false, false)
  const N9 := Digit(true, false, false, true)
  const NA := Digit(true, false, true, false)
  const NB := Digit(true, false, true, true)
  const NC := Digit(true, true, false, false)
  const ND := Digit(true, true, false, true)
  const NE := Digit(true, true, true, false)
  const NF := Digit(true, true, true, true)

  function BitOf(n: Digit, i: nat): bool {
    if i == 0 then n.a else if i == 1 then n.b else if i == 2 then n.c else n.d
  }

  function BitAt(w: Word, i: nat): bool {
    if i < 4 then BitOf(w.p, i) else if i < 8 then BitOf(w.q, i - 4)
    else if i < 12 then BitOf(w.r, i - 8) else BitOf(w.s, i - 12)
  }

  function RegOf(w: Word): (r: Reg)
    ensures forall i :: 0 <= i < 16 ==> r[i] == BitAt(w, i)
  {
    seq(16, i requires 0 <= i < 16 => BitAt(w, i))
  }

  function ShiftWord(w: Word): Word {
    var top := w.p.a;
    Word(Digit(w.p.b, w.p.c, w.p.d, w.q.a != top), Digit(w.q.b, w.q.c, w.q.d, w.r.a),
         Digit(w.r.b, w.r.c, w.r.d != top, w.s.a), Digit(w.s.b, w.s.c, w.s.d, top))
  }

  function XorDigit(v: Digit, w: Digit): Digit { Digit(v.a != w.a, v.b != w.b, v.c != w.c, v.d != w.d) }

  function XorWord(v: Word, w: Word): Word {
    Word(XorDigit(v.p, w.p), XorDigit(v.q, w.q), XorDigit(v.r, w.r), XorDigit(v.s, w.s))
  }

  /** One step of Horner's rule, and the steps of one digit. */
  function Take(acc: Word, bit: bool, a: Word): Word {
    if bit then XorWord(ShiftWord(acc), a) else ShiftWord(acc)
  }

  function TakeDigit(acc: Word, n: Digit, a: Word): Word {
    Take(Take(Take(Take(acc, n.a, a), n.b, a), n.c, a), n.d, a)
  }

  function Product(a: Word, b: Word): Word {
    TakeDigit(TakeDigit(TakeDigit(TakeDigit(Word(N0, N0, N0, N0), b.p, a), b.q, a), b.r, a), b.s, a)
  }

  lemma ShiftedBit(w: Word, i: nat)
    requires i < 16
    ensures BitAt(ShiftWord(w), i) == ((i < 15 && BitAt(w, i + 1)) != (BitAt(w, 0) && Tap(i)))
  {}

  lemma ShiftWordShifts(w: Word)
    ensures RegOf(ShiftWord(w)) == Shift(RegOf(w))
  {
    forall i | 0 <= i < 16
      ensures RegOf(ShiftWord(w))[i] == Shift(RegOf(w))[i]
    {
      ShiftedBit(w, i);
    }
  }

  lemma XoredBit(v: Word, w: Word, i: nat)
    requires i < 16
    ensures BitAt(XorWord(v, w), i) == (BitAt(v, i) != BitAt(w, i))
  {}

  lemma XorWordXors(v: Word, w: Word)
    ensures RegOf(XorWord(v, w)) == Xor(RegOf(v), RegOf(w))
  {
    forall i | 0 <= i < 16
      ensures RegOf(XorWord(v, w))[i] == Xor(RegOf(v), RegOf(w))[i]
    {
      XoredBit(v, w, i);
    }
  }

  lemma TakeIsHorner(acc: Word, bit: bool, a: Word)
    ensures RegOf(Take(acc, bit, a)) == Xor(Shift(RegOf(acc)), Times(bit, RegOf(a)))
  {
    var v := ShiftWord(acc);
    ShiftWordShifts(acc);
    XorWordXors(v, a);
    assert Xor(RegOf(v), Zeros(16)) == RegOf(v);
  }

  lemma TakeFirst(acc: Word, a: Word, r: Reg, j: nat)
    requires j < 16
    ensures Horner(RegOf(acc), RegOf(a), r[j..]) == Horner(RegOf(Take(acc, r[j], a)), RegOf(a), r[j + 1..])
  {
    TakeIsHorner(acc, r[j], a);
    assert r[j..][1..] == r[j + 1..];
  }

  lemma TakeDigitIsHorner(acc: Word, n: Digit, a: Word, r: Reg, j: nat)
    requires j + 4 <= 16 && r[j] == n.a && r[j + 1] == n.b && r[j + 2] == n.c && r[j + 3] == n.d
    ensures Horner(RegOf(acc), RegOf(a), r[j..]) == Horner(RegOf(TakeDigit(acc, n, a)), RegOf(a), r[j + 4..])
  {
    var t1 := Take(acc, n.a, a);
    var t2 := Take(t1, n.b, a);
    var t3 := Take(t2, n.c, a);
    TakeFirst(acc, a, r, j);
    TakeFirst(t1, a, r, j + 1);
    TakeFirst(t2, a, r, j + 2);
    TakeFirst(t3, a, r, j + 3);
  }

  lemma DigitsOf(w: Word)
    ensures var r := RegOf(w);
      && r[0] == w.p.a && r[1] == w.p.b && r[2] == w.p.c && r[3] == w.p.d
      && r[4] == w.q.a && r[5] == w.q.b && r[6] == w.q.c && r[7] == w.q.d
      && r[8] == w.r.a && r[9] == w.r.b && r[10] == w.r.c && r[11] == w.r.d
      && r[12] == w.s.a && r[13] == w.s.b && r[14] == w.s.c && r[15] == w.s.d
  {}

  /** Two digits at once. */
  lemma TwoDigitsAreHorner(acc: Word, m: Digit, n: Digit, a: Word, r: Reg, j: nat)
    requires j + 8 <= 16 && r[j] == m.a && r[j + 1] == m.b && r[j + 2] == m.c && r[j + 3] == m.d
    requires r[j + 4] == n.a && r[j + 5] == n.b && r[j + 6] == n.c && r[j + 7] == n.d
    ensures Horner(RegOf(acc), RegOf(a), r[j..])
         == Horner(RegOf(TakeDigit(TakeDigit(acc, m, a), n, a)), RegOf(a), r[j + 8..])
  {
    TakeDigitIsHorner(acc, m, a, r, j);
    TakeDigitIsHorner(TakeDigit(acc, m, a), n, a, r, j + 4);
  }

  lemma ProductIsHorner(a: Word, b: Word)
    ensures RegOf(Product(a, b)) == Horner(Zeros(16), RegOf(a), RegOf(b))
  {
    var zero, r := Word(N0, N0, N0, N0), RegOf(b);
    DigitsOf(b);
    TwoDigitsAreHorner(zero, b.p, b.q, a, r, 0);
    TwoDigitsAreHorner(TakeDigit(TakeDigit(zero, b.p, a), b.q, a), b.r, b.s, a, r, 8);
    assert r[0..] == r && r[16..] == [];
    ZeroWord();
  }

  lemma ZeroWord()
    ensures RegOf(Word(N0, N0, N0, N0)) == Zeros(16)
  {}

  // ------------------------------------------------------------ powers of x

  /** The word of x^n. */
  ghost predicate IsPower(n: nat, w: Word) { RegOf(w) == Power(n) }

  lemma Multiply(n: nat, a: Word, m: nat, b: Word, c: Word)
    requires IsPower(n, a) && IsPower(m, b) && Product(a, b) == c
    ensures IsPower(n + m, c)
  {
    ProductIsHorner(a, b);
    ProductShifts(Power(m), n);
    ShiftsAdd(One(), m, n);
  }

  // Products of powers, at most two in each lemma.

  lemma PowerOne()
    ensures IsPower(1, Word(N0, N0, N0, N2))
  {
    assert Power(1) == Shift(One());
  }

  lemma Power4()
    ensures IsPower(2, Word(N0, N0, N0, N4))
    ensures IsPower(4, Word(N0, N0, N1, N0))
  {
    PowerOne();
    Multiply(1, Word(N0, N0, N0, N2), 1, Word(N0, N0, N0, N2), Word(N0, N0, N0, N4));
    Multiply(2, Word(N0, N0, N0, N4), 2, Word(N0, N0, N0, N4), Word(N0, N0, N1, N0));
  }

  lemma Power16()
    ensures IsPower(8, Word(N0, N1, N0, N0))
    ensures IsPower(16, Word(N1, N0, N2, N1))
  {
    Power4();
    Multiply(4, Word(N0, N0, N1, N0), 4, Word(N0, N0, N1, N0), Word(N0, N1, N0, N0));
    Multiply(8, Word(N0, N1, N0, N0), 8, Word(N0, N1, N0, N0), Word(N1, N0, N2, N1));
  }

  lemma Power64()
    ensures IsPower(32, Word(N3, N7, N3, N0))
    ensures IsPower(64, Word(NB, N8, N6, N1))
  {
    Power16();
    Multiply(16, Word(N1, N0, N2, N1), 16, Word(N1, N0, N2, N1), Word(N3, N7, N3, N0));
    Multiply(32, Word(N3, N7, N3, N0), 32, Word(N3, N7, N3, N0), Word(NB, N8, N6, N1));
  }

  lemma Power256()
    ensures IsPower(128, Word(NA, NE, NF, NC))
    ensures IsPower(256, Word(N8, NE, N2, N9))
  {
    Power64();
    Multiply(64, Word(NB, N8, N6, N1), 64, Word(NB, N8, N6, N1), Word(NA, NE, NF, NC));
    Multiply(128, Word(NA, NE, NF, NC), 128, Word(NA, NE, NF, NC), Word(N8, NE, N2, N9));
  }

  lemma Power1024()
    ensures IsPower(512, Word(N1, N3, NF, NC))
    ensures IsPower(1024, Word(N3, N6, NC, N4))
  {
    Power256();
    Multiply(256, Word(N8, NE, N2, N9), 256, Word(N8, NE, N2, N9), Word(N1, N3, NF, NC));
    Multiply(512, Word(N1, N3, NF, NC), 512, Word(N1, N3, NF, NC), Word(N3, N6, NC, N4));
  }

  lemma Power4096()
    ensures IsPower(2048, Word(NF, ND, N5, N0))
    ensures IsPower(4096, Word(NA, NA, N9, NE))
  {
    Power1024();
    Multiply(1024, Word(N3, N6, NC, N4), 1024, Word(N3, N6, NC, N4), Word(NF, ND, N5, N0));
    Multiply(2048, Word(NF, ND, N5, N0), 2048, Word(NF, ND, N5, N0), Word(NA, NA, N9, NE));
  }

  lemma Power16384()
    ensures IsPower(8192, Word(N8, N8, N1, NC))
    ensures IsPower(16384, Word(N4, N4, N5, N8))
  {
    Power4096();
    Multiply(4096, Word(NA, NA, N9, NE), 4096, Word(NA, NA, N9, NE), Word(N8, N8, N1, NC));
    Multiply(8192, Word(N8, N8, N1, NC), 8192, Word(N8, N8, N1, NC), Word(N4, N4, N5, N8));
  }

  lemma Power32768()
    ensures IsPower(32768, Word(N0, N0, N0, N2))
  {
    Power16384();
    Multiply(16384, Word(N4, N4, N5, N8), 16384, Word(N4, N4, N5, N8), Word(N0, N0, N0, N2));
  }

  lemma Power208()
    ensures IsPower(192, Word(N6, N5, N0, NB))
    ensures IsPower(208, Word(N4, N5, NB, N4))
  {
    Power256();
    Power64();
    Power16();
    Multiply(128, Word(NA, NE, NF, NC), 64, Word(NB, N8, N6, N1), Word(N6, N5, N0, NB));
    Multiply(192, Word(N6, N5, N0, NB), 16, Word(N1, N0, N2, N1), Word(N4, N5, NB, N4));
  }

  lemma Power217()
    ensures IsPower(216, Word(NA, NC, N6, N1))
    ensures IsPower(217, Word(N4, N8, NE, N3))
  {
    Power208();
    Power16();
    PowerOne();
    Multiply(208, Word(N4, N5, NB, N4), 8, Word(N0, N1, N0, N0), Word(NA, NC, N6, N1));
    Multiply(216, Word(NA, NC, N6, N1), 1, Word(N0, N0, N0, N2), Word(N4, N8, NE, N3));
  }

  lemma Power1057()
    ensures IsPower(1056, Word(NF, N1, N4, N7))
    ensures IsPower(1057, Word(NF, N2, NA, NF))
  {
    Power1024();
    Power64();
    PowerOne();
    Multiply(1024, Word(N3, N6, NC, N4), 32, Word(N3, N7, N3, N0), Word(NF, N1, N4, N7));
    Multiply(1056, Word(NF, N1, N4, N7), 1, Word(N0, N0, N0, N2), Word(NF, N2, NA, NF));
  }

  lemma Power4672()
    ensures IsPower(4608, Word(N5, N4, NA, N0))
    ensures IsPower(4672, Word(N0, N1, N0, N6))
  {
    Power4096();
    Power1024();
    Power64();
    Multiply(4096, Word(NA, NA, N9, NE), 512, Word(N1, N3, NF, NC), Word(N5, N4, NA, N0));
    Multiply(4608, Word(N5, N4, NA, N0), 64, Word(NB, N8, N6, N1), Word(N0, N1, N0, N6));
  }

  lemma Power4681()
    ensures IsPower(4680, Word(N1, N6, N2, N1))
    ensures IsPower(4681, Word(N2, NC, N4, N2))
  {
    Power4672();
    Power16();
    PowerOne();
    Multiply(4672, Word(N0, N1, N0, N6), 8, Word(N0, N1, N0, N0), Word(N1, N6, N2, N1));
    Multiply(4680, Word(N1, N6, N2, N1), 1, Word(N0, N0, N0, N2), Word(N2, NC, N4, N2));
  }

  // ------------------------------------------------------------ the period

  /** After `n` shifts the register is as it was. */
  ghost predicate Returns(r: Reg, n: nat) { Shifts(r, n) == r }

  lemma PeriodReturns()
    ensures Returns(One(), PERIOD)
  {
    Power32768();
    PowerOne();
    ShiftLast(One(), PERIOD);
    ShiftInjective(Power(PERIOD), One());
  }

  /** So every register does. */
  lemma AllReturn(r: Reg)
    ensures Returns(r, PERIOD)
  {
    PeriodReturns();
    ProductShifts(r, PERIOD);
    ProductShifts(r, 0);
  }

  lemma ReturnsLess(r: Reg, a: nat, b: nat)
    requires Returns(r, a) && Returns(r, a + b)
    ensures Returns(r, b)
  {
    ShiftsAdd(r, a, b);
  }

  lemma Distributes(g: int, a: int, b: int)
    ensures g * (a + b) == g * a + g * b
  {}

  lemma {:induction false} ReturnsMore(r: Reg, g: nat, c: nat)
    requires Returns(r, g)
    ensures Returns(r, g * c)
    decreases c
  {
    if c == 0 {
      assert g * c == 0;
    } else {
      Distributes(g, 1, c - 1);
      ReturnsMore(r, g, c - 1);
      ShiftsAdd(r, g, g * (c - 1));
    }
  }

  /** Two numbers of shifts after which a register returns have a common divisor
      that does too. */
  lemma {:induction false} CommonReturn(r: Reg, a: nat, b: nat) returns (g: nat, p: nat, q: nat)
    requires 0 < a && 0 < b && Returns(r, a) && Returns(r, b)
    ensures Returns(r, g) && a == g * p && b == g * q && p > 0 && q > 0
    decreases a + b
  {
    if a == b {
      g, p, q := a, 1, 1;
    } else if a < b {
      var q';
      ReturnsLess(r, a, b - a);
      g, p, q' := CommonReturn(r, a, b - a);
      q := p + q';
      Distributes(g, p, q');
    } else {
      var p';
      ReturnsLess(r, b, a - b);
      g, p', q := CommonReturn(r, a - b, b);
      p := p' + q;
      Distributes(g, p', q);
    }
  }

  /** The divisors of the period up to `n`. */
  predicate SmallDivisors(n: nat) {
    n == 0 || ((32767 % n == 0 ==> n == 1 || n == 7 || n == 31 || n == 151) && SmallDivisors(n - 1))
  }

  lemma {:induction false} SmallDivisorsMean(n: nat, d: nat)
    requires SmallDivisors(n) && 0 < d <= n && PERIOD % d == 0
    ensures d == 1 || d == 7 || d == 31 || d == 151
  {
    if d < n { SmallDivisorsMean(n - 1, d); }
  }

  lemma SmallDivisorsTo50()
    ensures SmallDivisors(50)
  {
    assert SmallDivisors(10) && SmallDivisors(20) && SmallDivisors(30) && SmallDivisors(40);
  }

  lemma SmallDivisorsTo100()
    ensures SmallDivisors(100)
  {
    SmallDivisorsTo50();
    assert SmallDivisors(60) && SmallDivisors(70) && SmallDivisors(80) && SmallDivisors(90);
  }

  lemma SmallDivisorsTo150()
    ensures SmallDivisors(150)
  {
    SmallDivisorsTo100();
    assert SmallDivisors(110) && SmallDivisors(120) && SmallDivisors(130) && SmallDivisors(140);
  }

  lemma SmallDivisorsTo181()
    ensures SmallDivisors(181)
  {
    SmallDivisorsTo150();
    assert SmallDivisors(160) && SmallDivisors(170) && SmallDivisors(180);
  }

  /** A proper divisor of the period divides one of its three largest ones. */
  lemma ProperDivisor(g: nat, q: nat) returns (c: nat)
    requires g * q == 32767 && q >= 2 && g >= 1
    ensures 217 == g * c || 1057 == g * c || 4681 == g * c
  {
    SmallDivisorsTo181();
    OneIsSmall(g, q);
    if g <= 181 {
      Arith.DivModUnique(32767, g, q, 0);
      SmallDivisorsMean(181, g);
      c := if g == 151 then 7 else 217 / g;
    } else {
      assert q * g == 32767;
      Arith.DivModUnique(32767, q, g, 0);
      SmallDivisorsMean(181, q);
      c := 1;
    }
  }

  lemma OneIsSmall(g: nat, q: nat)
    requires g * q == 32767
    ensures g <= 181 || q <= 181
  {
    if g >= 182 && q >= 182 {
      Arith.ProductOrder(g, 181, q);
    }
  }

  /** The register returns after none of the three largest proper divisors. */
  ghost predicate ReturnsLate(r: Reg) { !Returns(r, 217) && !Returns(r, 1057) && !Returns(r, 4681) }

  lemma NoEarlyReturn(r: Reg, k: nat)
    requires ReturnsLate(r) && 0 < k < PERIOD
    ensures !Returns(r, k)
  {
    if Returns(r, k) {
      AllReturn(r);
      var g, p, q := CommonReturn(r, k, PERIOD);
      Arith.ProductOrder(g, 0, p);
      var c := ProperDivisor(g, q);
      ReturnsMore(r, g, c);
    }
  }

  /** Such a register returns exactly after the multiples of 32767 shifts. */
  lemma ReturnsExactly(r: Reg, n: nat)
    requires ReturnsLate(r)
    ensures Returns(r, n) <==> n % PERIOD == 0
  {
    var c, k := n / PERIOD, n % PERIOD;
    AllReturn(r);
    ReturnsMore(r, PERIOD, c);
    if k == 0 {
      assert n == PERIOD * c;
    } else {
      NoEarlyReturn(r, k);
      if Returns(r, n) { ReturnsLess(r, PERIOD * c, k); }
    }
  }

  lemma OneReturnsLate()
    ensures ReturnsLate(One())
  {
    Power217();
    Power1057();
    Power4681();
    assert One()[15];
  }

  /** x^n is 1 exactly for the multiples of 32767. */
  lemma PowerIsOneExactly(n: nat)
    ensures Power(n) == One() <==> n % PERIOD == 0
  {
    OneReturnsLate();
    ReturnsExactly(One(), n);
  }

  // ------------------------------------------------------------ two wrong bits

  /** x^15, the register of a single bit about to leave. */
  function Top(): Reg { [true] + Zeros(15) }

  lemma {:induction false} UnitPower(n: nat)
    requires n <= 15
    ensures Power(n) == Zeros(15 - n) + [true] + Zeros(n)
  {
    if n > 0 {
      UnitPower(n - 1);
      ShiftsAdd(One(), n - 1, 1);
      var r := Power(n - 1);
      assert Power(n) == Shift(r) && !r[0] && r[16 - n];
    }
  }

  /** A leaving bit comes back when x^k is 1. */
  lemma TopComesBack(k: nat, n: nat)
    requires n == 15
    ensures Shifts(Top(), k) == Top() <==> Power(k) == One()
  {
    UnitPower(n);
    assert Power(n) == Top();
    ShiftsAdd(One(), n, k);
    ShiftsAdd(One(), k, n);
    if Shifts(Top(), k) == Top() {
      ShiftsInjective(Power(k), One(), n);
    }
  }

  /** Bits `p` and `q` are set and no other. */
  ghost predicate TwoBits(d: seq<bool>, p: nat, q: nat) {
    p < q < |d| && forall i :: 0 <= i < |d| ==> (d[i] <==> i == p || i == q)
  }

  lemma LoneBit(r: Reg, z: seq<bool>)
    requires true !in z
    ensures FoldBits(r, z + [true]) == AddBit(Shifts(r, |z|), true)
  {
    FoldBitsConcat(r, z, [true]);
    ZeroBitsOnlyShift(r, z);
    assert FoldBits(FoldBits(r, z), [true]) == FoldBits(AddBit(FoldBits(r, z), true), []);
  }

  /** A second bit cancels the first exactly when the register holds x^15. */
  lemma BitsMeet(r: Reg)
    ensures AddBit(r, true) == Zeros(16) <==> r == Top()
  {
    var met := r[0 := r[0] != true];
    assert Shift(Zeros(16)) == Zeros(16);
    if AddBit(r, true) == Zeros(16) {
      ShiftInjective(met, Zeros(16));
      forall i | 0 <= i < 16
        ensures r[i] == Top()[i]
      {
        assert met[i] == false;
      }
    }
    if r == Top() {
      assert met == Zeros(16);
    }
  }

  lemma TwoBitsResidue(d: seq<bool>, p: nat, q: nat)
    requires TwoBits(d, p, q)
    ensures FoldBits(Zeros(16), d) == Zeros(16) <==> Shifts(Top(), q - p) == Top()
  {
    var z, y, t := d[..p], d[p + 1..q], d[q + 1..];
    var first := AddBit(Zeros(16), true);
    ZeroStaysZero(p);
    LoneBit(Zeros(16), z);
    assert Zeros(16)[0 := true] == Top() && first == Shift(Top());
    LoneBit(first, y);
    assert Shifts(first, |y|) == Shifts(Top(), q - p);
    var second := AddBit(Shifts(first, |y|), true);
    BitsMeet(Shifts(first, |y|));
    assert d == (z + [true]) + ((y + [true]) + t);
    FoldBitsConcat(Zeros(16), z + [true], (y + [true]) + t);
    FoldBitsConcat(first, y + [true], t);
    ZeroBitsOnlyShift(second, t);
    ZeroStaysZero(|t|);
    if second != Zeros(16) { NonzeroStaysNonzero(second, |t|); }
  }

  lemma TwoBitsCancelExactly(d: seq<bool>, p: nat, q: nat)
    requires TwoBits(d, p, q)
    ensures FoldBits(Zeros(16), d) == Zeros(16) <==> (q - p) % PERIOD == 0
  {
    var n := 15;
    TwoBitsResidue(d, p, q);
    TopComesBack(q - p, n);
    PowerIsOneExactly(q - p);
  }

  lemma SameByXor(x: Reg, y: Reg)
    ensures Xor(x, y) == Zeros(16) <==> x == y
  {
    if Xor(x, y) == Zeros(16) {
      forall i | 0 <= i < 16
        ensures x[i] == y[i]
      {
        assert Xor(x, y)[i] == false;
      }
    }
    XorSelf(x);
  }

  /** Two wrong bits go undetected if and only if their distance is a multiple of
      32767, the period of the generator. */
  lemma TwoErrorsDetectedExactly(a: seq<byte>, b: seq<byte>, p: nat, q: nat)
    requires |a| == |b| && TwoBits(Difference(Bits(a), Bits(b)), p, q)
    ensures Checksum(a) != Checksum(b) <==> (q - p) % PERIOD != 0
  {
    var d := Difference(Bits(a), Bits(b));
    FoldIsLinear(Ones(), Ones(), Bits(a), Bits(b));
    XorSelf(Ones());
    SameByXor(Checksum(a), Checksum(b));
    TwoBitsCancelExactly(d, p, q);
  }

  /** In particular no closer two are missed. */
  lemma CloseErrorsDetected(a: seq<byte>, b: seq<byte>, p: nat, q: nat)
    requires |a| == |b| && TwoBits(Difference(Bits(a), Bits(b)), p, q) && q - p < PERIOD
    ensures Checksum(a) != Checksum(b)
  {
    TwoErrorsDetectedExactly(a, b, p, q);
  }
}
