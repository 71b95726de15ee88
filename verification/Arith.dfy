/** Division and remainder by a variable. */
module Arith {

  lemma DivModUnique(x: int, d: int, q: int, r: int)
    requires 0 <= r < d && x == d * q + r
    ensures x / d == q && x % d == r
  {
    var p := x / d;
    assert x == d * p + x % d;
    assert p < q ==> d * (p + 1) <= d * q;
    assert q < p ==> d * (q + 1) <= d * p;
  }

  lemma OneMoreMultiple(d: nat, n: nat)
    requires n > 0
    ensures d * n == d * (n - 1) + d && d * (n - 1) >= 0
  {}

  lemma NextModulo(n: int, m: int)
    requires 1 <= m
    ensures (n + 1) % m == if n % m == m - 1 then 0 else n % m + 1
    ensures (n + 1) / m == if n % m == m - 1 then n / m + 1 else n / m
  {
    if n % m == m - 1 {
      DivModUnique(n + 1, m, n / m + 1, 0);
    } else {
      DivModUnique(n + 1, m, n / m, n % m + 1);
    }
  }

  lemma Regroup(p: int, m: int, q: int, a: int)
    ensures (p * m) * q + p * a == p * (m * q + a)
  {
    assert p * (m * q + a) == p * (m * q) + p * a;
    assert p * (m * q) == (p * m) * q;
  }

  /** A remainder survives an earlier one by a multiple. */
  lemma ModOfMultiple(x: nat, p: nat, m: nat, n: nat)
    requires p >= 1 && n == p * m >= 1
    ensures x % n % p == x % p
  {
    var q, r := x / n, x % n;
    assert x == n * q + r;
    var a, b := r / p, r % p;
    assert r == p * a + b;
    Regroup(p, m, q, a);
    DivModUnique(x, p, m * q + a, b);
  }

  lemma HalfModulo(x: nat, m: nat)
    requires m >= 1
    ensures x % (2 * m) == x % 2 + 2 * (x / 2 % m)
  {
    var q, r := x / 2 / m, x / 2 % m;
    assert x / 2 == m * q + r;
    Regroup(2, m, q, r);
    DivModUnique(x, 2 * m, q, x % 2 + 2 * r);
  }

  /** Closer than the divisor, different numbers have different remainders. */
  lemma CloseModuloDiffer(j: nat, k: nat, d: nat)
    requires j < k < j + d
    ensures j % d != k % d
  {
    var r, gap := j % d, k - j;
    assert j == d * (j / d) + r;
    if r + gap < d {
      DivModUnique(k, d, j / d, r + gap);
    } else {
      assert d * (j / d + 1) == d * (j / d) + d;
      DivModUnique(k, d, j / d + 1, r + gap - d);
    }
  }

  lemma DivideOrder(a: int, b: int, d: int)
    requires d > 0 && 0 <= a <= b
    ensures 0 <= a / d <= b / d
  {
    var p, q := a / d, b / d;
    assert a == d * p + a % d && b == d * q + b % d;
    assert p >= q + 1 ==> d * p >= d * (q + 1);
    assert p <= -1 ==> d * p <= -d;
  }

  lemma ProductOrder(a: nat, r: nat, b: nat)
    requires r < b
    ensures a * r + a <= a * b
  {
    assert a * (r + 1) <= a * b;
  }

  /** Dividing twice is dividing by the product. */
  lemma DivideTwice(x: nat, a: nat, b: nat, c: nat)
    requires a >= 1 && b >= 1 && c == a * b
    ensures c >= 1 && x / c == x / a / b
  {
    var y, s := x / a, x % a;
    var q, r := y / b, y % b;
    assert y == b * q + r && x == a * y + s;
    Regroup(a, b, q, r);
    ProductOrder(a, r, b);
    DivModUnique(x, c, q, a * r + s);
  }

  /** A low digit and the rest. */
  lemma LowDigit(low: nat, d: nat, rest: nat)
    requires low < d
    ensures (low + d * rest) / d == rest && (low + d * rest) % d == low
  {
    DivModUnique(low + d * rest, d, rest, low);
  }

  /** Some low digits of a remainder: those below `q`, and `u` values of the rest. */
  lemma LowDigits(low: nat, q: nat, rest: nat, u: nat, m: nat)
    requires low < q && u >= 1 && m == q * u
    ensures m >= 1 && (low + q * rest) % m == low + q * (rest % u)
  {
    var a, b := rest / u, rest % u;
    assert rest == u * a + b;
    Regroup(q, u, a, b);
    ProductOrder(q, b, u);
    DivModUnique(low + q * rest, m, a, low + q * b);
  }

  /** Multiples of the divisor do not count. */
  lemma MultipleDropped(low: nat, r: nat, s: nat, rest: nat)
    requires r >= 1
    ensures (low + (r * s) * rest) % r == low % r
  {
    var a, b := low / r, low % r;
    assert low == r * a + b;
    Regroup(r, s, rest, a);
    DivModUnique(low + (r * s) * rest, r, s * rest + a, b);
  }
}
