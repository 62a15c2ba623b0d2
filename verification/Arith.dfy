/** Division and multiplication facts the solver needs spelled out. */
module Arith {

  lemma MulAtLeast(d: nat, k: int)
    requires k >= 1
    ensures d * k >= d
  {
  }

  lemma DivUnique(n: int, d: nat, q: int, r: int)
    requires d > 0 && n == d * q + r && 0 <= r < d
    ensures n / d == q && n % d == r
  {
    var k := q - n / d;
    assert d * k == d * q - d * (n / d) == n % d - r;
    if k >= 1 {
      MulAtLeast(d, k);
    } else if k <= -1 {
      MulAtLeast(d, -k);
    }
  }

  lemma DivMod(n: nat, d: nat)
    requires d > 0
    ensures n == n % d + d * (n / d) && n % d < d && n / d >= 0
  {
  }

  lemma Nest(b: nat, c: nat, t: nat, u: nat, r: nat)
    ensures b * (c * t + u) + r == (b * c) * t + (b * u + r) && b * (c - 1) == b * c - b
  {
  }

  lemma DivDiv(n: nat, b: nat, c: nat)
    requires b > 0 && c > 0
    ensures b * c > 0 && n / (b * c) == n / b / c
  {
    DivMod(n, b);
    DivMod(n / b, c);
    var t, u, r := n / b / c, n / b % c, n % b;
    Nest(b, c, t, u, r);
    MulBound(b, u, b, c - 1);
    MulBound(1, 1, b, c);
    DivUnique(n, b * c, t, b * u + r);
  }

  lemma MulBound(a: nat, b: nat, c: nat, d: nat)
    requires a <= c && b <= d
    ensures a * b <= c * d
  {
  }

  /** Congruent numbers have equal remainders. */
  lemma ModCongruent(a: int, b: int, m: nat, k: int)
    requires m > 0 && a == b + m * k
    ensures a % m == b % m
  {
    assert a == m * (b / m + k) + b % m;
    DivUnique(a, m, b / m + k, b % m);
  }

  lemma ModMul(a: nat, b: nat, m: nat)
    requires m > 0
    ensures (a % m) * b % m == a * b % m
  {
    var q := a / m;
    assert a * b == (m * q + a % m) * b == (a % m) * b + m * (q * b);
    ModCongruent(a * b, (a % m) * b, m, q * b);
  }

  lemma ModAdd(a: int, b: int, m: nat)
    requires m > 0
    ensures (a % m + b) % m == (a + b) % m
  {
    ModCongruent(a + b, a % m + b, m, a / m);
  }
}
