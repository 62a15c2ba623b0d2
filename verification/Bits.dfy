/** Bitwise operators on naturals, and the arithmetic they amount to where the source uses
    them: masking, joining disjoint fields, clamping, and undoing an exclusive or. */
module Bits {
  import opened Arith

  function Pow2(k: nat): (r: nat)
    ensures r >= 1
  {
    if k == 0 then 1 else 2 * Pow2(k - 1)
  }

  datatype Gate = AndGate | OrGate | XorGate {
    function Bit(x: nat, y: nat): nat {
      match this
      case AndGate => if x == 1 && y == 1 then 1 else 0
      case OrGate => if x == 1 || y == 1 then 1 else 0
      case XorGate => if x != y then 1 else 0
    }
  }

  /** One gate applied to every pair of bits. The definition is in two steps so that it
      unfolds only where `ZipStep` is called. */
  function Zip(g: Gate, a: nat, b: nat): nat
    decreases a + b, 1
  {
    ZipBits(g, a, b)
  }

  function ZipBits(g: Gate, a: nat, b: nat): nat
    decreases a + b, 0
  {
    if a == 0 && b == 0 then 0 else g.Bit(a % 2, b % 2) + 2 * Zip(g, a / 2, b / 2)
  }

  function And(a: nat, b: nat): nat { Zip(AndGate, a, b) }
  function Or(a: nat, b: nat): nat { Zip(OrGate, a, b) }
  function Xor(a: nat, b: nat): nat { Zip(XorGate, a, b) }

  lemma ZipStep(g: Gate, a: nat, b: nat)
    ensures Zip(g, a, b) == g.Bit(a % 2, b % 2) + 2 * Zip(g, a / 2, b / 2)
    ensures a == 0 && b == 0 ==> Zip(g, a, b) == 0
  {
  }

  lemma ZipDouble(g: Gate, a: nat, x: nat, b: nat, y: nat)
    requires a < 2 && b < 2
    ensures Zip(g, a + 2 * x, b + 2 * y) == g.Bit(a, b) + 2 * Zip(g, x, y)
  {
    ZipStep(g, a + 2 * x, b + 2 * y);
  }

  /** Every gate works field by field. */
  lemma {:induction false} ZipFields(g: Gate, a: nat, b: nat, c: nat, d: nat, k: nat, m: nat)
    requires m == Pow2(k) && a < m && c < m
    ensures Zip(g, a + m * b, c + m * d) == Zip(g, a, c) + m * Zip(g, b, d)
    decreases k
  {
    if k == 0 {
      ZipStep(g, 0, 0);
    } else {
      var n := Pow2(k - 1);
      Twice(n, b);
      Twice(n, d);
      ZipDouble(g, a % 2, a / 2 + n * b, c % 2, c / 2 + n * d);
      ZipFields(g, a / 2, b, c / 2, d, k - 1, n);
      ZipStep(g, a, c);
      Twice(n, Zip(g, b, d));
    }
  }

  lemma Twice(m: nat, z: nat)
    ensures 2 * m * z == 2 * (m * z)
  {
  }

  lemma {:induction false} ZeroAnd(a: nat)
    ensures And(a, 0) == 0
  {
    ZipStep(AndGate, a, 0);
    if a > 0 {
      ZeroAnd(a / 2);
    }
  }

  lemma {:induction false} ZeroOr(a: nat)
    ensures Or(a, 0) == a && Or(0, a) == a
  {
    ZipStep(OrGate, a, 0);
    ZipStep(OrGate, 0, a);
    if a > 0 {
      ZeroOr(a / 2);
    }
  }

  lemma {:induction false} AndOnes(a: nat, k: nat, m: nat)
    requires m == Pow2(k) && a < m
    ensures And(a, m - 1) == a
    decreases k
  {
    ZipStep(AndGate, a, m - 1);
    if k > 0 {
      AndOnes(a / 2, k - 1, Pow2(k - 1));
    }
  }

  lemma AndMaskFields(low: nat, high: nat, k: nat, m: nat)
    requires m == Pow2(k) && low < m
    ensures And(low + m * high, m - 1) == low
  {
    ZipFields(AndGate, low, high, m - 1, 0, k, m);
    AndOnes(low, k, m);
    ZeroAnd(high);
  }

  /** Masking with k ones keeps the k low bits. */
  lemma AndMask(a: nat, k: nat, m: nat)
    requires m == Pow2(k)
    ensures And(a, m - 1) == a % m
  {
    DivMod(a, m);
    AndMaskFields(a % m, a / m, k, m);
  }

  /** Fields that do not overlap are joined by adding them. */
  lemma OrDisjoint(a: nat, b: nat, k: nat, m: nat)
    requires m == Pow2(k) && a < m
    ensures Or(a, b * m) == a + b * m
  {
    ZipFields(OrGate, a, 0, 0, b, k, m);
    ZeroOr(a);
    ZeroOr(b);
  }

  lemma {:induction false} AndAtMost(a: nat, b: nat)
    ensures And(a, b) <= a && And(a, b) <= b
  {
    ZipStep(AndGate, a, b);
    if a > 0 {
      AndAtMost(a / 2, b / 2);
    } else if b > 0 {
      AndAtMost(0, b / 2);
    }
  }

  lemma {:induction false} XorBound(a: nat, b: nat, k: nat)
    requires a < Pow2(k) && b < Pow2(k)
    ensures Xor(a, b) < Pow2(k)
    decreases k
  {
    ZipStep(XorGate, a, b);
    if k > 0 {
      XorBound(a / 2, b / 2, k - 1);
    }
  }

  /** Applying the same mask twice restores the original. */
  lemma {:induction false} XorTwice(a: nat, b: nat)
    ensures Xor(Xor(a, b), b) == a
    decreases a + b
  {
    ZipStep(XorGate, a, b);
    ZipStep(XorGate, Xor(a, b), b);
    if a + b > 0 {
      XorTwice(a / 2, b / 2);
    }
  }

  lemma {:induction false} XorZero(a: nat, b: nat)
    ensures Xor(a, b) == 0 <==> a == b
    decreases a + b
  {
    ZipStep(XorGate, a, b);
    if a + b > 0 {
      XorZero(a / 2, b / 2);
    }
  }

  lemma {:induction false} OrZero(a: nat, b: nat)
    ensures Or(a, b) == 0 <==> a == 0 && b == 0
    decreases a + b
  {
    ZipStep(OrGate, a, b);
    if a + b > 0 {
      OrZero(a / 2, b / 2);
    }
  }
}
