/** Powers of two and the bitwise and of naturals. */
module Bits {
  import Arith

  function Pow2(k: nat): (p: nat)
    ensures p >= 1
  {
    if k == 0 then 1 else 2 * Pow2(k - 1)
  }

  /** Shifting right, a bit at a time. */
  function Shr(x: nat, n: nat): nat {
    if n == 0 then x else Shr(x / 2, n - 1)
  }

  function And(x: nat, y: nat): nat {
    if x == 0 || y == 0 then 0 else (x % 2) * (y % 2) + 2 * And(x / 2, y / 2)
  }

  /** Shifting right divides. */
  lemma {:induction false} ShrDivides(x: nat, n: nat)
    ensures Shr(x, n) == x / Pow2(n)
  {
    if n > 0 {
      ShrDivides(x / 2, n - 1);
      Arith.DivideTwice(x, 2, Pow2(n - 1), Pow2(n));
    }
  }

  lemma AndOdd(x: nat, half: nat)
    requires x > 0 && half >= 1
    ensures And(x, 2 * half - 1) == x % 2 + 2 * And(x / 2, half - 1)
  {
    assert (2 * half - 1) % 2 == 1 && (2 * half - 1) / 2 == half - 1;
  }

  lemma MaskOneMore(x: nat, half: nat)
    requires half >= 1 && And(x / 2, half - 1) == x / 2 % half
    ensures And(x, 2 * half - 1) == x % (2 * half)
  {
    if x > 0 {
      AndOdd(x, half);
      Arith.HalfModulo(x, half);
    } else {
      Arith.DivModUnique(0, 2 * half, 0, 0);
    }
  }

  /** Masking with a power of two less one takes the remainder. */
  lemma {:induction false} AndMask(x: nat, k: nat)
    ensures And(x, Pow2(k) - 1) == x % Pow2(k)
  {
    if k > 0 {
      AndMask(x / 2, k - 1);
      MaskOneMore(x, Pow2(k - 1));
    }
  }

  lemma {:induction false} Pow2Splits(j: nat, k: nat)
    requires j <= k
    ensures Pow2(k) == Pow2(j) * Pow2(k - j)
  {
    if j > 0 {
      Pow2Splits(j - 1, k - 1);
    }
  }

  lemma Pow2Adds(a: nat, b: nat)
    ensures Pow2(a + b) == Pow2(a) * Pow2(b)
  {
    Pow2Splits(a, a + b);
  }

  lemma PowProduct(a: nat, b: nat, pa: nat, pb: nat)
    requires Pow2(a) == pa && Pow2(b) == pb
    ensures Pow2(a + b) == pa * pb
  {
    Pow2Adds(a, b);
  }

  lemma SmallPowers()
    ensures Pow2(4) == 16 && Pow2(6) == 64 && Pow2(8) == 256 && Pow2(10) == 1024
  {
    assert Pow2(2) == 4 && Pow2(4) == 16;
    PowProduct(4, 2, 16, 4);
    PowProduct(4, 4, 16, 16);
    PowProduct(6, 4, 64, 16);
  }

  /** The powers that the machine words need. */
  lemma Powers()
    ensures Pow2(64) == 0x1_0000_0000_0000_0000 && Pow2(62) == 0x4000_0000_0000_0000
    ensures Pow2(42) == 0x400_0000_0000 && Pow2(41) == 0x200_0000_0000
    ensures Pow2(32) == 0x1_0000_0000 && Pow2(14) == 0x4000
  {
    SmallPowers();
    PowProduct(8, 6, 256, 64);
    PowProduct(8, 8, 256, 256);
    PowProduct(16, 16, 0x1_0000, 0x1_0000);
    PowProduct(32, 10, 0x1_0000_0000, 1024);
    PowProduct(32, 32, 0x1_0000_0000, 0x1_0000_0000);
    assert Pow2(42) == 2 * Pow2(41);
    assert Pow2(64) == 2 * Pow2(63) && Pow2(63) == 2 * Pow2(62);
  }

  /** The remainder by a power of two survives the wrap of a wider register. */
  lemma WrapKeepsRemainder(x: nat, j: nat, k: nat)
    requires j <= k
    ensures x % Pow2(k) % Pow2(j) == x % Pow2(j)
  {
    Pow2Splits(j, k);
    Arith.ModOfMultiple(x, Pow2(j), Pow2(k - j), Pow2(k));
  }

  /** The bitwise or of naturals. */
  function Or(x: nat, y: nat): nat
    decreases x + y
  {
    if x == 0 then y else if y == 0 then x
    else (if x % 2 == 1 || y % 2 == 1 then 1 else 0) + 2 * Or(x / 2, y / 2)
  }

  lemma OrHalves(x: nat, y: nat)
    ensures Or(x, 2 * y) == x % 2 + 2 * Or(x / 2, y)
  {
    assert (2 * y) / 2 == y && (2 * y) % 2 == 0;
    if x == 0 || y == 0 { assert Or(0, y) == y; }
  }

  /** Without common bits, or adds. */
  lemma {:induction false} OrDisjoint(x: nat, y: nat, k: nat)
    requires x < Pow2(k)
    ensures Or(x, y * Pow2(k)) == x + y * Pow2(k)
    decreases k
  {
    if k > 0 {
      var p := Pow2(k - 1);
      assert y * Pow2(k) == 2 * (y * p) by { assert y * (2 * p) == 2 * (y * p); }
      OrHalves(x, y * p);
      OrDisjoint(x / 2, y, k - 1);
    }
  }

  /** Testing one bit. */
  lemma {:induction false} AndBit(x: nat, k: nat)
    requires x < 2 * Pow2(k)
    ensures And(x, Pow2(k)) == if x >= Pow2(k) then Pow2(k) else 0
    decreases k
  {
    if k == 0 {
      assert And(x, 1) == if x == 0 then 0 else x % 2 + 2 * And(x / 2, 0);
    } else {
      var p := Pow2(k - 1);
      AndBit(x / 2, k - 1);
      assert (2 * p) % 2 == 0 && (2 * p) / 2 == p;
      if x > 0 { assert And(x, 2 * p) == (x % 2) * ((2 * p) % 2) + 2 * And(x / 2, (2 * p) / 2); }
    }
  }
}
