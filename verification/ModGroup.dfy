/** Multiplication and powers modulo m, as `ctx.rs` computes them. */
module ModGroup {
  import opened Arith

  /** a * b modulo m, by repeated addition; `MulExact` has the product. Said in two steps, so
      that it unfolds only there. */
  function Mul(m: nat, a: nat, b: nat): nat
    requires m > 0
    decreases b, 1
  {
    MulSteps(m, a, b)
  }

  function MulSteps(m: nat, a: nat, b: nat): nat
    requires m > 0
    decreases b, 0
  {
    if b == 0 then 0 else (Mul(m, a, b - 1) + a) % m
  }

  lemma {:induction false} MulExact(m: nat, a: nat, b: nat)
    requires m > 0
    ensures Mul(m, a, b) == a * b % m < m
    decreases b
  {
    assert Mul(m, a, b) == MulSteps(m, a, b);
    if b > 0 {
      MulExact(m, a, b - 1);
      OneMoreTimes(m, a, b);
    } else {
      ZeroTimes(m, a);
    }
  }

  lemma ZeroTimes(m: nat, a: nat)
    requires m > 0
    ensures a * 0 % m == 0
  {
  }

  lemma OneMoreTimes(m: nat, a: nat, b: nat)
    requires m > 0 && b > 0
    ensures (a * (b - 1) % m + a) % m == a * b % m < m
  {
    ModAdd(a * (b - 1), a, m);
    assert a * (b - 1) + a == a * b;
  }

  lemma MulLess(m: nat, a: nat, b: nat)
    requires m > 0
    ensures Mul(m, a, b) < m
  {
    MulExact(m, a, b);
  }

  /** `mulmod` reduces its arguments first; it makes no difference. */
  lemma MulReduced(m: nat, a: nat, b: nat)
    requires m > 0
    ensures (a % m) * (b % m) % m == Mul(m, a, b)
  {
    MulExact(m, a, b);
    ModMul(a, b % m, m);
    ModMul(b, a, m);
    assert a * (b % m) == (b % m) * a && a * b == b * a;
  }

  lemma MulReducedLeft(m: nat, a: nat, b: nat)
    requires m > 0
    ensures Mul(m, a % m, b) == Mul(m, a, b)
  {
    MulExact(m, a, b);
    MulExact(m, a % m, b);
    ModMul(a, b, m);
  }

  lemma MulComm(m: nat, a: nat, b: nat)
    requires m > 0
    ensures Mul(m, a, b) == Mul(m, b, a)
  {
    MulExact(m, a, b);
    MulExact(m, b, a);
    assert a * b == b * a;
  }

  lemma MulAssoc(m: nat, a: nat, b: nat, c: nat)
    requires m > 0
    ensures Mul(m, Mul(m, a, b), c) == Mul(m, a, Mul(m, b, c))
  {
    MulExact(m, a, b);
    MulExact(m, b, c);
    MulExact(m, Mul(m, a, b), c);
    MulExact(m, a, Mul(m, b, c));
    AssocMod(m, a, b, c, Mul(m, a, b), Mul(m, b, c));
  }

  lemma AssocMod(m: nat, a: nat, b: nat, c: nat, x: nat, y: nat)
    requires m > 0 && x == a * b % m && y == b * c % m
    ensures x * c % m == a * y % m
  {
    ModMul(a * b, c, m);
    ModMul(b * c, a, m);
    Products(a, b, c, y);
  }

  lemma Products(a: nat, b: nat, c: nat, d: nat)
    ensures a * b * c == b * c * a && a * d == d * a
  {
    assert a * b * c == a * (b * c) == (b * c) * a;
  }

  lemma MulOne(m: nat, a: nat)
    requires a < m
    ensures Mul(m, 1, a) == a && Mul(m, a, 1) == a
  {
    MulExact(m, 1, a);
    MulExact(m, a, 1);
    DivUnique(a, m, 0, a);
  }

  lemma MulSwap(m: nat, a: nat, b: nat, c: nat, d: nat)
    requires m > 0
    ensures Mul(m, Mul(m, a, b), Mul(m, c, d)) == Mul(m, Mul(m, a, c), Mul(m, b, d))
  {
    MulAssoc(m, a, b, Mul(m, c, d));
    MulAssoc(m, b, c, d);
    MulComm(m, b, c);
    MulAssoc(m, c, b, d);
    MulAssoc(m, a, c, Mul(m, b, d));
  }

  /** b to the e modulo m. */
  function Exp(m: nat, b: nat, e: nat): nat
    requires m > 0
    decreases e, 1
  {
    ExpSteps(m, b, e)
  }

  function ExpSteps(m: nat, b: nat, e: nat): nat
    requires m > 0
    decreases e, 0
  {
    if e == 0 then 1 else Mul(m, b, Exp(m, b, e - 1))
  }

  lemma ExpZero(m: nat, b: nat)
    requires m > 0
    ensures Exp(m, b, 0) == 1
  {
    assert Exp(m, b, 0) == ExpSteps(m, b, 0);
  }

  lemma ExpStep(m: nat, b: nat, e: nat)
    requires m > 0 && e > 0
    ensures Exp(m, b, e) == Mul(m, b, Exp(m, b, e - 1))
  {
    assert Exp(m, b, e) == ExpSteps(m, b, e);
  }

  lemma ExpLess(m: nat, b: nat, e: nat)
    requires m > 1
    ensures Exp(m, b, e) < m
  {
    if e == 0 {
      ExpZero(m, b);
    } else {
      ExpStep(m, b, e);
      MulLess(m, b, Exp(m, b, e - 1));
    }
  }

  lemma {:induction false} ExpAdd(m: nat, b: nat, x: nat, y: nat)
    requires m > 1
    ensures Exp(m, b, x + y) == Mul(m, Exp(m, b, x), Exp(m, b, y))
    decreases x
  {
    if x == 0 {
      ExpZero(m, b);
      ExpLess(m, b, y);
      MulOne(m, Exp(m, b, y));
    } else {
      ExpAdd(m, b, x - 1, y);
      ExpStep(m, b, x + y);
      ExpStep(m, b, x);
      MulAssoc(m, b, Exp(m, b, x - 1), Exp(m, b, y));
    }
  }

  lemma {:induction false} ExpTimes(m: nat, b: nat, x: nat, y: nat)
    requires m > 1
    ensures Exp(m, b, x * y) == Exp(m, Exp(m, b, x), y)
    decreases y
  {
    if y == 0 {
      assert x * y == 0;
      ExpZero(m, b);
      ExpZero(m, Exp(m, b, x));
    } else {
      ExpTimes(m, b, x, y - 1);
      assert x * y == x + x * (y - 1);
      ExpAdd(m, b, x, x * (y - 1));
      ExpStep(m, Exp(m, b, x), y);
    }
  }

  lemma {:induction false} ExpOfProduct(m: nat, a: nat, b: nat, e: nat)
    requires m > 1
    ensures Exp(m, Mul(m, a, b), e) == Mul(m, Exp(m, a, e), Exp(m, b, e))
    decreases e
  {
    ExpZero(m, a);
    ExpZero(m, b);
    if e == 0 {
      ExpZero(m, Mul(m, a, b));
      MulOne(m, 1);
    } else {
      ExpOfProduct(m, a, b, e - 1);
      ExpStep(m, Mul(m, a, b), e);
      ExpStep(m, a, e);
      ExpStep(m, b, e);
      MulSwap(m, a, b, Exp(m, a, e - 1), Exp(m, b, e - 1));
    }
  }

  lemma {:induction false} ExpOfOne(m: nat, e: nat)
    requires m > 1
    ensures Exp(m, 1, e) == 1
    decreases e
  {
    if e == 0 {
      ExpZero(m, 1);
    } else {
      ExpOfOne(m, e - 1);
      ExpStep(m, 1, e);
      MulOne(m, 1);
    }
  }

  /** Exponents of an element of order dividing q count modulo q. */
  lemma ExpMod(m: nat, b: nat, q: nat, e: nat)
    requires m > 1 && q > 0 && Exp(m, b, q) == 1
    ensures Exp(m, b, e % q) == Exp(m, b, e)
  {
    DivMod(e, q);
    ExpAdd(m, b, e % q, q * (e / q));
    ExpTimes(m, b, q, e / q);
    ExpOfOne(m, e / q);
    ExpLess(m, b, e % q);
    MulOne(m, Exp(m, b, e % q));
  }

  const TWO_TO_64: nat := 0x1_0000_0000_0000_0000
  const TWO_TO_128: nat := 0x1_0000_0000_0000_0000_0000_0000_0000_0000

  /** A product of residues below 2^64 fits in 128 bits. */
  lemma ResiduesFit(m: nat, a: nat, b: nat)
    requires 0 < m <= TWO_TO_64
    ensures (a % m) * (b % m) < TWO_TO_128
  {
    MulBound(a % m, b % m, TWO_TO_64 - 1, TWO_TO_64 - 1);
  }

  /** `mulmod`: the 128-bit product wraps, but not for a modulus of at most 64 bits. */
  method Mulmod(a: nat, b: nat, m: nat) returns (r: nat)
    requires m > 0
    ensures (a % m) * (b % m) < TWO_TO_128 ==> r == Mul(m, a, b)
    ensures m <= TWO_TO_64 ==> r == Mul(m, a, b)
  {
    MulReduced(m, a, b);
    if m <= TWO_TO_64 {
      ResiduesFit(m, a, b);
    }
    r := ProductMod((a % m) * (b % m), m);
  }

  method ProductMod(x: nat, m: nat) returns (r: nat)
    requires m > 0
    ensures x < TWO_TO_128 ==> r == x % m
  {
    var wrapped := x % TWO_TO_128;
    assert x < TWO_TO_128 ==> wrapped == x;
    r := wrapped % m;
  }

  /** `modpow`: square and multiply. */
  method ModPow(base: nat, exp: nat, m: nat) returns (acc: nat)
    requires m > 1
    ensures m <= TWO_TO_64 ==> acc == Exp(m, base, exp)
  {
    acc := 1;
    var b: nat, e: nat := base % m, exp;
    ExpLess(m, base, exp);
    ExpReduced(m, base, exp);
    MulOne(m, Exp(m, b, e));
    while e > 0
      invariant m <= TWO_TO_64 ==> acc < m && Mul(m, acc, Exp(m, b, e)) == Exp(m, base, exp)
      decreases e
    {
      SquareStep(m, b, e);
      if e % 2 == 1 {
        MulLess(m, acc, b);
        MulAssoc(m, acc, b, Exp(m, Mul(m, b, b), e / 2));
        acc := Mulmod(acc, b, m);
      }
      b := Mulmod(b, b, m);
      e := e / 2;
    }
    ExpZero(m, b);
    if m <= TWO_TO_64 {
      MulOne(m, acc);
    }
  }

  lemma SquareStep(m: nat, b: nat, e: nat)
    requires m > 1 && e > 0
    ensures e % 2 == 0 ==> Exp(m, b, e) == Exp(m, Mul(m, b, b), e / 2)
    ensures e % 2 == 1 ==> Exp(m, b, e) == Mul(m, b, Exp(m, Mul(m, b, b), e / 2))
  {
    var h := e / 2;
    ExpOfProduct(m, b, b, h);
    ExpAdd(m, b, h, h);
    if e % 2 == 1 {
      ExpStep(m, b, e);
    }
  }

  lemma {:induction false} ExpReduced(m: nat, b: nat, e: nat)
    requires m > 1
    ensures Exp(m, b % m, e) == Exp(m, b, e)
    decreases e
  {
    if e == 0 {
      ExpZero(m, b);
      ExpZero(m, b % m);
    } else {
      ExpReduced(m, b, e - 1);
      ExpStep(m, b, e);
      ExpStep(m, b % m, e);
      MulReducedLeft(m, b, Exp(m, b, e - 1));
    }
  }
}
