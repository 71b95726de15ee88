/** Real quotients cut to integers. */
module Quotients {

  /** Conversion to an integer cuts towards zero. */
  function Trunc(x: real): int { if x >= 0.0 then x.Floor else -((-x).Floor) }

  /** Integer division cutting towards zero. */
  function TDiv(k: int, r: int): int
    requires r > 0
  {
    if k >= 0 then k / r else -((-k) / r)
  }

  lemma TruncMonotone(x: real, y: real)
    requires x <= y
    ensures Trunc(x) <= Trunc(y)
  {}

  lemma Multiplied(a: real, b: real, w: real)
    requires w > 0.0
    ensures a <= b <==> a * w <= b * w
  {
    if a <= b { Nonnegative(b - a, w); } else { Positive(a - b, w); }
  }

  lemma Nonnegative(d: real, w: real)
    requires d >= 0.0 && w > 0.0
    ensures d * w >= 0.0
  {}

  lemma Positive(d: real, w: real)
    requires d > 0.0 && w > 0.0
    ensures d * w > 0.0
  {}

  lemma DivideBack(a: real, w: real)
    requires w != 0.0
    ensures a / w * w == a
  {}

  lemma DivideMonotone(a: real, b: real, w: real)
    requires w > 0.0
    ensures a <= b <==> a / w <= b / w
  {
    DivideBack(a, w);
    DivideBack(b, w);
    Multiplied(a / w, b / w, w);
  }

  lemma CastProduct(q: int, r: int)
    ensures (q * r) as real == q as real * r as real
  {}

  lemma Between(y: real, a: real, b: real, r: real)
    requires r > 0.0 && a * r <= y * r < b * r
    ensures a <= y < b
  {
    Multiplied(a, y, r);
    Multiplied(b, y, r);
  }

  lemma CastBelow(q: int, r: int, n: int)
    requires q * r <= n
    ensures q as real * r as real <= n as real
  {
    CastProduct(q, r);
  }

  lemma CastAbove(q: int, r: int, n: int)
    requires n <= q * r
    ensures n as real <= q as real * r as real
  {
    CastProduct(q, r);
  }

  lemma FloorIs(y: real, q: int)
    requires q as real <= y < (q + 1) as real
    ensures y.Floor == q
  {}

  /** The whole part of a real, in multiples of a whole number. */
  lemma WholeMultiples(x: real, r: int)
    requires r > 0
    ensures var q := x.Floor / r;
            q as real * r as real <= x < (q + 1) as real * r as real
  {
    var n := x.Floor;
    assert (n / r) * r <= n && n + 1 <= (n / r + 1) * r;
    CastBelow(n / r, r, n);
    CastAbove(n / r + 1, r, n + 1);
  }

  lemma FloorOfQuotient(x: real, r: int)
    requires x >= 0.0 && r > 0
    ensures (x / r as real).Floor == x.Floor / r
  {
    var q, y := x.Floor / r, x / r as real;
    WholeMultiples(x, r);
    DivideBack(x, r as real);
    Between(y, q as real, (q + 1) as real, r as real);
    FloorIs(y, q);
  }

  lemma DivideTwice(t: real, w: real, r: real)
    requires w > 0.0 && r > 0.0
    ensures w * r > 0.0 && t / (w * r) == t / w / r
  {
    Positive(w, r);
    var y, z := t / (w * r), t / w / r;
    DivideBack(t, w * r);
    DivideBack(t, w);
    DivideBack(t / w, r);
    assert y * (w * r) == t && z * (w * r) == t by { assert z * (w * r) == (z * r) * w; }
    Multiplied(y, z, w * r);
    Multiplied(z, y, w * r);
  }

  lemma SignOfQuotient(x: real, r: real)
    requires r > 0.0
    ensures (-x) / r == -(x / r)
    ensures x >= 0.0 <==> x / r >= 0.0
  {
    DivideMonotone(0.0, x, r);
  }

  lemma TruncOfQuotient(x: real, r: int)
    requires r > 0
    ensures Trunc(x / r as real) == TDiv(Trunc(x), r)
  {
    SignOfQuotient(x, r as real);
    if x >= 0.0 {
      FloorOfQuotient(x, r);
    } else {
      FloorOfQuotient(-x, r);
      assert (-x).Floor >= 0;
    }
  }

  /** The key at a coarser width is the finer key divided. */
  lemma CoarserKey(t: real, w: real, r: int)
    requires w > 0.0 && r > 0
    ensures w * r as real > 0.0 && Trunc(t / (w * r as real)) == TDiv(Trunc(t / w), r)
  {
    DivideTwice(t, w, r as real);
    TruncOfQuotient(t / w, r);
  }
}
