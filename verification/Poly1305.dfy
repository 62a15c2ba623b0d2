/** Poly1305 (section 2.5 of RFC 8439) as `chacha.rs` computes it: a 130-bit accumulator in five
    26-bit limbs, 32-bit wrapping words and 64-bit products. `x / 2^k` is the shift `x >> k`;
    `U32` marks where the source keeps only 32 bits; 64-bit sums, which must not
    overflow, are shown to fit by `Columns`. */
module Poly1305 {
  import opened Arith
  import opened Bytes
  import opened Bits

  datatype Limbs = Limbs(l0: nat, l1: nat, l2: nat, l3: nat, l4: nat)

  function U32(x: nat): nat { if x < 0x1_0000_0000 then x else x % 0x1_0000_0000 }

  /** `x & 0x3ff_ffff`, which keeps the low 26 bits. */
  function Low26(x: nat): (r: nat)
    ensures r < 0x400_0000
  {
    x % 0x400_0000
  }

  /** The number the limbs stand for. */
  function Val(l: Limbs): nat {
    l.l0 + 0x400_0000 * l.l1 + 0x10_0000_0000_0000 * l.l2 + 0x4000_0000_0000_0000_0000 * l.l3
    + 0x1_0000_0000_0000_0000_0000_0000_00 * l.l4
  }

  /** 2^130 - 5. */
  const P: nat := 0x3_ffff_ffff_ffff_ffff_ffff_ffff_ffff_fffb

  // ---------- reading a block ----------

  function Word(s: seq<byte>, i: nat): nat
    requires i + 4 <= |s|
  {
    DecodeU32(s[i..i + 4])
  }

  /** The 26-bit pieces of a 16-byte block; `hibit` is 2^24 for a full block, else 0. */
  function Pieces(block: seq<byte>, hibit: nat): Limbs
    requires |block| == 16
  {
    var t0, t1, t2, t3 := Word(block, 0), Word(block, 4), Word(block, 8), Word(block, 12);
    Limbs(Low26(t0),
          Low26(Or(t0 / 0x400_0000, U32(t1 * 0x40))),
          Low26(Or(t1 / 0x10_0000, U32(t2 * 0x1000))),
          Low26(Or(t2 / 0x4000, U32(t3 * 0x4_0000))),
          Or(t3 / 0x100, hibit))
  }

  lemma Pow2Values()
    ensures Pow2(6) == 0x40 && Pow2(8) == 0x100 && Pow2(12) == 0x1000 && Pow2(14) == 0x4000
    ensures Pow2(18) == 0x4_0000 && Pow2(20) == 0x10_0000 && Pow2(24) == 0x100_0000
    ensures Pow2(26) == 0x400_0000 && Pow2(32) == 0x1_0000_0000
  {
    assert Pow2(3) == 8;
    assert Pow2(10) == 0x400;
    assert Pow2(16) == 0x1_0000;
    assert Pow2(22) == 0x40_0000;
    assert Pow2(28) == 0x1000_0000 && Pow2(30) == 0x4000_0000;
  }

  lemma U32IsMod(x: nat)
    ensures U32(x) == x % 0x1_0000_0000
  {
  }

  lemma Low26IsMask(x: nat)
    ensures And(x, 0x3ff_ffff) == Low26(x)
  {
    Pow2Values();
    AndMask(x, 26, 0x400_0000);
  }

  lemma Regroup(m: nat, q: nat, r: nat, k: nat)
    ensures (m * q + r) * k == m * k * q + r * k && (m - 1) * k == m * k - k
  {
  }

  /** Scaling commutes with taking remainders, and leaves room for a smaller field below. */
  lemma ScaledMod(x: nat, m: nat, k: nat, lo: nat)
    requires m > 0 && lo < k
    ensures m * k > 0 && (lo + x * k) % (m * k) == lo + x % m * k
  {
    DivMod(x, m);
    Regroup(m, x / m, x % m, k);
    MulBound(x % m, k, m - 1, k);
    DivUnique(lo + x * k, m * k, x / m, lo + x % m * k);
  }

  lemma ModMod(x: nat, m: nat, n: nat)
    requires n > 0 && m > 0
    ensures m * n > 0 && x % (m * n) % n == x % n
  {
    MulBound(1, 1, m, n);
    DivMod(x, m * n);
    var q := x / (m * n);
    assert m * n * q == n * (m * q);
    ModCongruent(x, x % (m * n), n, m * q);
  }

  /** Shifting left by k in 32 bits keeps the low bits. */
  lemma ShiftKeeps(x: nat, k: nat, m: nat)
    requires k > 0 && m > 0 && m * k == 0x1_0000_0000
    ensures U32(x * k) == x % m * k
  {
    U32IsMod(x * k);
    ScaledMod(x, m, k, 0);
  }

  /** `lo | (hi << k)` in 32 bits. */
  lemma Splice(lo: nat, hi: nat, bits: nat, k: nat, m: nat)
    requires k == Pow2(bits) && lo < k && m > 0 && m * k == 0x1_0000_0000
    ensures Or(lo, U32(hi * k)) == lo + hi % m * k
  {
    ShiftKeeps(hi, k, m);
    OrDisjoint(lo, hi % m, bits, k);
  }

  /** The same, of which 26 bits are kept. */
  lemma Joined(lo: nat, hi: nat, bits: nat, k: nat, n: nat)
    requires k == Pow2(bits) && lo < k && n > 0 && n * k == 0x400_0000
    ensures Low26(Or(lo, U32(hi * k))) == lo + hi % n * k
  {
    assert 0x40 * n * k == 0x1_0000_0000;
    Splice(lo, hi, bits, k, 0x40 * n);
    ScaledMod(hi % (0x40 * n), n, k, lo);
    ModMod(hi, 0x40, n);
  }

  lemma {:induction false} FromLESplit(a: seq<byte>, b: seq<byte>)
    ensures FromLE(a + b) == FromLE(a) + Pow256(|a|) * FromLE(b)
  {
    if a == [] {
      assert a + b == b;
    } else {
      FromLESplit(a[1..], b);
      assert (a + b)[1..] == a[1..] + b;
      var p := Pow256(|a| - 1);
      assert 256 * (p * FromLE(b)) == 256 * p * FromLE(b);
    }
  }

  function Words(t0: nat, t1: nat, t2: nat, t3: nat): nat {
    t0 + 0x1_0000_0000 * t1 + 0x1_0000_0000_0000_0000 * t2 + 0x1_0000_0000_0000_0000_0000_0000 * t3
  }

  /** Four little-endian words make up sixteen little-endian bytes. */
  lemma WordsAreBytes(s: seq<byte>)
    requires |s| == 16
    ensures Words(Word(s, 0), Word(s, 4), Word(s, 8), Word(s, 12)) == FromLE(s)
  {
    WordStep(s, 0);
    WordStep(s, 4);
    WordStep(s, 8);
    WordStep(s, 12);
    assert s[0..] == s && s[16..] == [];
  }

  lemma WordStep(s: seq<byte>, i: nat)
    requires i + 4 <= |s|
    ensures FromLE(s[i..]) == Word(s, i) + 0x1_0000_0000 * FromLE(s[i + 4..])
  {
    Widths();
    DecodeU32IsFromLE(s[i..i + 4]);
    FromLESplit(s[i..i + 4], s[i + 4..]);
    assert s[i..i + 4] + s[i + 4..] == s[i..];
  }

  /** A limb of the pieces of a block. */
  ghost predicate Piecewise(l: Limbs) {
    l.l0 < 0x400_0000 && l.l1 < 0x400_0000 && l.l2 < 0x400_0000 && l.l3 < 0x400_0000 && l.l4 < 0x200_0000
  }

  lemma PiecesOfWords(t0: nat, t1: nat, t2: nat, t3: nat, hi: nat)
    requires t0 < 0x1_0000_0000 && t1 < 0x1_0000_0000 && t2 < 0x1_0000_0000 && t3 < 0x1_0000_0000 && hi < 2
    ensures
      var l := Limbs(t0 % 0x400_0000, t0 / 0x400_0000 + t1 % 0x10_0000 * 0x40,
                     t1 / 0x10_0000 + t2 % 0x4000 * 0x1000, t2 / 0x4000 + t3 % 0x100 * 0x4_0000,
                     t3 / 0x100 + 0x100_0000 * hi);
      Piecewise(l) && Val(l) == Words(t0, t1, t2, t3) + 0x1_0000_0000_0000_0000_0000_0000_0000_0000 * hi
  {
  }

  /** The pieces of a block are its little-endian value, plus 2^128 when `hibit` is set. */
  lemma PiecesExact(block: seq<byte>, hi: nat)
    requires |block| == 16 && hi < 2
    ensures Piecewise(Pieces(block, 0x100_0000 * hi))
    ensures Val(Pieces(block, 0x100_0000 * hi)) == FromLE(block) + 0x1_0000_0000_0000_0000_0000_0000_0000_0000 * hi
  {
    var t0, t1, t2, t3 := Word(block, 0), Word(block, 4), Word(block, 8), Word(block, 12);
    WordsAreBytes(block);
    Pow2Values();
    Joined(t0 / 0x400_0000, t1, 6, 0x40, 0x10_0000);
    Joined(t1 / 0x10_0000, t2, 12, 0x1000, 0x4000);
    Joined(t2 / 0x4000, t3, 18, 0x4_0000, 0x100);
    OrTop(t3 / 0x100, hi);
    PiecesOfWords(t0, t1, t2, t3, hi);
  }

  lemma OrTop(lo: nat, hi: nat)
    requires lo < 0x100_0000
    ensures Or(lo, 0x100_0000 * hi) == lo + 0x100_0000 * hi
  {
    Pow2Values();
    OrDisjoint(lo, hi, 24, 0x100_0000);
  }

  // ---------- absorbing a block ----------

  /** r[1..5], each times five: the fold of 2^130 back to 5. */
  datatype Fold = Fold(s1: nat, s2: nat, s3: nat, s4: nat)

  function FoldOf(r: Limbs): Fold {
    Fold(U32(r.l1 * 5), U32(r.l2 * 5), U32(r.l3 * 5), U32(r.l4 * 5))
  }

  function AddPieces(h: Limbs, t: Limbs): Limbs {
    Limbs(U32(h.l0 + t.l0), U32(h.l1 + t.l1), U32(h.l2 + t.l2), U32(h.l3 + t.l3), U32(h.l4 + t.l4))
  }

  function Dot(a: Limbs, b0: nat, b1: nat, b2: nat, b3: nat, b4: nat): nat {
    a.l0 * b0 + a.l1 * b1 + a.l2 * b2 + a.l3 * b3 + a.l4 * b4
  }

  function Products(a: Limbs, r: Limbs, s: Fold): Limbs {
    Limbs(Dot(a, r.l0, s.s4, s.s3, s.s2, s.s1),
          Dot(a, r.l1, r.l0, s.s4, s.s3, s.s2),
          Dot(a, r.l2, r.l1, r.l0, s.s4, s.s3),
          Dot(a, r.l3, r.l2, r.l1, r.l0, s.s4),
          Dot(a, r.l4, r.l3, r.l2, r.l1, r.l0))
  }

  /** The carry out of each column. */
  datatype Chain = Chain(c0: nat, c1: nat, c2: nat, c3: nat, c4: nat)

  function Carries(d: Limbs): Chain {
    var c0 := CarryFrom(d.l0);
    var c1 := CarryFrom(d.l1 + c0);
    var c2 := CarryFrom(d.l2 + c1);
    var c3 := CarryFrom(d.l3 + c2);
    Chain(c0, c1, c2, c3, CarryFrom(d.l4 + c3))
  }

  /** What the carries leave in the limbs, the last one folded back into the first two. */
  function Settle(d: Limbs, k: Chain): Limbs {
    var m := U32(Low26(d.l0) + U32(k.c4 * 5));
    Limbs(Low26(m), U32(Low26(d.l1 + k.c0) + m / 0x400_0000),
          Low26(d.l2 + k.c1), Low26(d.l3 + k.c2), Low26(d.l4 + k.c3))
  }

  function Carry(d: Limbs): Limbs {
    Settle(d, Carries(d))
  }

  /** `Poly1305::block`. */
  function Absorb(r: Limbs, s: Fold, h: Limbs, block: seq<byte>, hibit: nat): Limbs
    requires |block| == 16
  {
    Carry(Products(AddPieces(h, Pieces(block, hibit)), r, s))
  }

  /** What holds of the accumulator between blocks. */
  ghost predicate Reduced(h: Limbs) {
    h.l0 < 0x400_0000 && h.l1 < 0x400_0040 && h.l2 < 0x400_0000 && h.l3 < 0x400_0000 && h.l4 < 0x400_0000
  }

  ghost predicate Under26(r: Limbs) {
    r.l0 < 0x400_0000 && r.l1 < 0x400_0000 && r.l2 < 0x400_0000 && r.l3 < 0x400_0000 && r.l4 < 0x400_0000
  }

  ghost predicate Under27(a: Limbs) {
    a.l0 <= 0x800_0040 && a.l1 <= 0x800_0040 && a.l2 <= 0x800_0040 && a.l3 <= 0x800_0040 && a.l4 <= 0x800_0040
  }

  /** Column sums small enough for the carry chain to stay within 32 and 64 bits. */
  ghost predicate Columns(d: Limbs) {
    && d.l0 < 0x300_0000_0000_0000 && d.l1 < 0x300_0000_0000_0000 && d.l2 < 0x300_0000_0000_0000
    && d.l3 < 0x300_0000_0000_0000 && d.l4 < 0xc0_0000_0000_0000
  }

  ghost predicate CarryOf(c: nat, x: nat, h: nat) {
    x == h + 0x400_0000 * c && h == Low26(x)
  }

  function CarryFrom(x: nat): nat { U32(x / 0x400_0000) }

  lemma CarryOut(x: nat, c: nat)
    requires x < 0x300_0000_0000_0000 && c < 0x1_0000_0000
    ensures CarryOf(CarryFrom(x + c), x + c, Low26(x + c)) && CarryFrom(x + c) < 0x1_0000_0000
    ensures x < 0xc0_0000_0000_0000 ==> CarryFrom(x + c) <= 0x3000_0040
  {
  }

  /** Each carry is the exact quotient of its column. */
  ghost predicate ExactCarries(d: Limbs, k: Chain) {
    && CarryOf(k.c0, d.l0, Low26(d.l0)) && CarryOf(k.c1, d.l1 + k.c0, Low26(d.l1 + k.c0))
    && CarryOf(k.c2, d.l2 + k.c1, Low26(d.l2 + k.c1)) && CarryOf(k.c3, d.l3 + k.c2, Low26(d.l3 + k.c2))
    && CarryOf(k.c4, d.l4 + k.c3, Low26(d.l4 + k.c3)) && k.c4 <= 0x3000_0040
  }

  /** No carry is truncated. */
  lemma CarriesExact(d: Limbs)
    requires Columns(d)
    ensures ExactCarries(d, Carries(d))
  {
    var k := Carries(d);
    CarryOut(d.l0, 0);
    CarryOut(d.l1, k.c0);
    CarryOut(d.l2, k.c1);
    CarryOut(d.l3, k.c2);
    CarryOut(d.l4, k.c3);
  }

  lemma FoldBack(h0: nat, h1: nat, c: nat)
    requires h0 < 0x400_0000 && h1 < 0x400_0000 && c <= 0x3000_0040
    ensures U32(c * 5) == c * 5 && U32(h0 + c * 5) == h0 + c * 5 && (h0 + c * 5) / 0x400_0000 < 0x40
    ensures U32(h1 + (h0 + c * 5) / 0x400_0000) == h1 + (h0 + c * 5) / 0x400_0000
    ensures Low26(h0 + c * 5) + 0x400_0000 * ((h0 + c * 5) / 0x400_0000) == h0 + c * 5
  {
  }

  /** The identity behind the chain: what is carried out of one limb enters the next. */
  lemma SettleSum(d: Limbs, low: Limbs, k: Chain, m: nat, c: nat)
    requires d.l0 == low.l0 + 0x400_0000 * k.c0 && d.l1 + k.c0 == low.l1 + 0x400_0000 * k.c1
    requires d.l2 + k.c1 == low.l2 + 0x400_0000 * k.c2 && d.l3 + k.c2 == low.l3 + 0x400_0000 * k.c3
    requires d.l4 + k.c3 == low.l4 + 0x400_0000 * k.c4 && low.l0 + k.c4 * 5 == m + 0x400_0000 * c
    ensures Val(Limbs(m, low.l1 + c, low.l2, low.l3, low.l4)) + P * k.c4 == Val(d)
  {
  }

  /** What the carries leave in the limbs. */
  function Lows(d: Limbs, k: Chain): Limbs {
    Limbs(Low26(d.l0), Low26(d.l1 + k.c0), Low26(d.l2 + k.c1), Low26(d.l3 + k.c2), Low26(d.l4 + k.c3))
  }

  lemma SettleIs(d: Limbs, k: Chain, low: Limbs)
    requires low == Lows(d, k) && Under26(low) && k.c4 <= 0x3000_0040
    ensures var m := low.l0 + k.c4 * 5;
            Settle(d, k) == Limbs(Low26(m), low.l1 + m / 0x400_0000, low.l2, low.l3, low.l4)
  {
    FoldBack(low.l0, low.l1, k.c4);
  }

  lemma SettleExact(d: Limbs, k: Chain)
    requires ExactCarries(d, k)
    ensures Reduced(Settle(d, k)) && Val(Settle(d, k)) + P * k.c4 == Val(d)
  {
    var low := Lows(d, k);
    var m := low.l0 + k.c4 * 5;
    SettleIs(d, k, low);
    FoldBack(low.l0, low.l1, k.c4);
    SettleSum(d, low, k, Low26(m), m / 0x400_0000);
  }

  /** The carry chain keeps the limbs reduced and subtracts a multiple of p. */
  lemma CarryExact(d: Limbs) returns (c: nat)
    requires Columns(d)
    ensures Reduced(Carry(d)) && Val(Carry(d)) + P * c == Val(d)
  {
    CarriesExact(d);
    SettleExact(d, Carries(d));
    c := Carries(d).c4;
  }

  // ---------- the product modulo p ----------

  lemma DotBound(a: Limbs, b0: nat, b1: nat, b2: nat, b3: nat, b4: nat)
    requires Under27(a)
    ensures Dot(a, b0, b1, b2, b3, b4) <= 0x800_0040 * (b0 + b1 + b2 + b3 + b4)
  {
    MulBound(a.l0, b0, 0x800_0040, b0);
    MulBound(a.l1, b1, 0x800_0040, b1);
    MulBound(a.l2, b2, 0x800_0040, b2);
    MulBound(a.l3, b3, 0x800_0040, b3);
    MulBound(a.l4, b4, 0x800_0040, b4);
  }

  ghost predicate FiveTimes(s: Fold, r: Limbs) {
    s.s1 == 5 * r.l1 && s.s2 == 5 * r.l2 && s.s3 == 5 * r.l3 && s.s4 == 5 * r.l4
  }

  lemma ProductsFit(a: Limbs, r: Limbs, s: Fold)
    requires Under27(a) && Under26(r) && FiveTimes(s, r)
    ensures Columns(Products(a, r, s))
  {
    DotBound(a, r.l0, s.s4, s.s3, s.s2, s.s1);
    DotBound(a, r.l1, r.l0, s.s4, s.s3, s.s2);
    DotBound(a, r.l2, r.l1, r.l0, s.s4, s.s3);
    DotBound(a, r.l3, r.l2, r.l1, r.l0, s.s4);
    DotBound(a, r.l4, r.l3, r.l2, r.l1, r.l0);
  }

  lemma Scale(x: nat, r: Limbs)
    ensures x * Val(r) == Val(Row(x, r))
  {
  }

  lemma ScaleRows(a: Limbs, v: nat)
    ensures Val(a) * v == Val(Limbs(a.l0 * v, a.l1 * v, a.l2 * v, a.l3 * v, a.l4 * v))
  {
  }

  lemma DotFive(a: Limbs, r: Limbs, s: Fold)
    requires FiveTimes(s, r)
    ensures Products(a, r, s) == Limbs(
      a.l0 * r.l0 + 5 * (a.l1 * r.l4 + a.l2 * r.l3 + a.l3 * r.l2 + a.l4 * r.l1),
      a.l0 * r.l1 + a.l1 * r.l0 + 5 * (a.l2 * r.l4 + a.l3 * r.l3 + a.l4 * r.l2),
      a.l0 * r.l2 + a.l1 * r.l1 + a.l2 * r.l0 + 5 * (a.l3 * r.l4 + a.l4 * r.l3),
      a.l0 * r.l3 + a.l1 * r.l2 + a.l2 * r.l1 + a.l3 * r.l0 + 5 * (a.l4 * r.l4),
      a.l0 * r.l4 + a.l1 * r.l3 + a.l2 * r.l2 + a.l3 * r.l1 + a.l4 * r.l0)
  {
    Five(a.l1, r.l4);
    Five(a.l2, r.l3);
    Five(a.l2, r.l4);
    Five(a.l3, r.l2);
    Five(a.l3, r.l3);
    Five(a.l3, r.l4);
    Five(a.l4, r.l1);
    Five(a.l4, r.l2);
    Five(a.l4, r.l3);
    Five(a.l4, r.l4);
  }

  lemma Five(x: nat, y: nat)
    ensures x * (5 * y) == 5 * (x * y)
  {
  }

  /** What the columns beyond 2^130 amount to. */
  function Overflow(x1: Limbs, x2: Limbs, x3: Limbs, x4: Limbs): nat {
    x1.l4 + x2.l3 + x3.l2 + x4.l1 + 0x400_0000 * (x2.l4 + x3.l3 + x4.l2)
    + 0x10_0000_0000_0000 * (x3.l4 + x4.l3) + 0x4000_0000_0000_0000_0000 * x4.l4
  }

  /** Schoolbook rows gathered into columns, 2^130 replaced by 5. */
  lemma RowsToColumns(x0: Limbs, x1: Limbs, x2: Limbs, x3: Limbs, x4: Limbs)
    ensures Val(Limbs(Val(x0), Val(x1), Val(x2), Val(x3), Val(x4)))
         == Val(Limbs(x0.l0 + 5 * (x1.l4 + x2.l3 + x3.l2 + x4.l1),
                      x0.l1 + x1.l0 + 5 * (x2.l4 + x3.l3 + x4.l2),
                      x0.l2 + x1.l1 + x2.l0 + 5 * (x3.l4 + x4.l3),
                      x0.l3 + x1.l2 + x2.l1 + x3.l0 + 5 * x4.l4,
                      x0.l4 + x1.l3 + x2.l2 + x3.l1 + x4.l0))
         + P * Overflow(x1, x2, x3, x4)
  {
  }

  function Row(x: nat, r: Limbs): Limbs {
    Limbs(x * r.l0, x * r.l1, x * r.l2, x * r.l3, x * r.l4)
  }

  /** The columns represent the product up to a multiple of p. */
  lemma ProductsExact(a: Limbs, r: Limbs, s: Fold) returns (k: nat)
    requires FiveTimes(s, r)
    ensures Val(a) * Val(r) == Val(Products(a, r, s)) + P * k
  {
    k := Overflow(Row(a.l1, r), Row(a.l2, r), Row(a.l3, r), Row(a.l4, r));
    ScaleRows(a, Val(r));
    Scale(a.l0, r);
    Scale(a.l1, r);
    Scale(a.l2, r);
    Scale(a.l3, r);
    Scale(a.l4, r);
    RowsToColumns(Row(a.l0, r), Row(a.l1, r), Row(a.l2, r), Row(a.l3, r), Row(a.l4, r));
    DotFive(a, r, s);
  }

  lemma AddPiecesExact(h: Limbs, t: Limbs)
    requires Reduced(h) && Piecewise(t)
    ensures Under27(AddPieces(h, t)) && Val(AddPieces(h, t)) == Val(h) + Val(t)
  {
  }

  lemma FoldOfExact(r: Limbs)
    requires Under26(r)
    ensures FiveTimes(FoldOf(r), r)
  {
  }

  function Times(x: nat, y: nat): nat { x * y }

  /** n modulo p by repeated subtraction: `n % P`, kept from the solver until `ModPExact` is called. */
  function ModP(n: nat): nat
    decreases n, 1
  {
    SubtractP(n)
  }

  function SubtractP(n: nat): nat
    decreases n, 0
  {
    if n < P then n else ModP(n - P)
  }

  lemma {:induction false} ModPExact(n: nat)
    ensures ModP(n) == n % P
  {
    assert ModP(n) == SubtractP(n);
    if n >= P {
      ModPExact(n - P);
      ModCongruent(n, n - P, P, 1);
    }
  }

  /** The limbs are reduced and stand for `acc` modulo p. */
  ghost predicate Stands(h: Limbs, acc: nat) {
    Reduced(h) && ModP(Val(h)) == acc
  }

  /** Multiply and carry: reduced limbs that stand for the product modulo p. */
  lemma ReduceExact(a: Limbs, r: Limbs, x: nat, y: nat)
    requires Under27(a) && Under26(r) && x == Val(a) && y == Val(r)
    ensures Stands(Carry(Products(a, r, FoldOf(r))), ModP(Times(x, y)))
  {
    var d := Products(a, r, FoldOf(r));
    FoldOfExact(r);
    ProductsFit(a, r, FoldOf(r));
    var c := CarryExact(d);
    var k := ProductsExact(a, r, FoldOf(r));
    Congruence(Val(Carry(d)), c, k, x * y);
  }

  lemma ReduceOnto(a: Limbs, r: Limbs, rv: nat, hv: nat, acc: nat, v: nat)
    requires Under27(a) && Under26(r) && Val(a) == hv + v && rv == Val(r) && acc == ModP(hv)
    ensures Stands(Carry(Products(a, r, FoldOf(r))), ModP(Times(acc + v, rv)))
  {
    ReduceExact(a, r, hv + v, rv);
    ModStep(hv, v, rv);
  }

  /** One block: the limbs stay reduced and stand for (acc + block) * r modulo p. */
  lemma AbsorbExact(r: Limbs, rv: nat, h: Limbs, acc: nat, block: seq<byte>, hi: nat, v: nat)
    requires Under26(r) && Stands(h, acc) && |block| == 16 && hi < 2
    requires rv == Val(r) && v == FromLE(block) + 0x1_0000_0000_0000_0000_0000_0000_0000_0000 * hi
    ensures Stands(Absorb(r, FoldOf(r), h, block, 0x100_0000 * hi), ModP(Times(acc + v, rv)))
  {
    var t := Pieces(block, 0x100_0000 * hi);
    PiecesExact(block, hi);
    AddPiecesExact(h, t);
    ReduceOnto(AddPieces(h, t), r, rv, Val(h), acc, v);
  }

  lemma Congruence(v: nat, c: nat, k: nat, n: nat)
    requires n == v + P * c + P * k
    ensures ModP(v) == ModP(n)
  {
    ModCongruent(n, v, P, c + k);
    ModPExact(v);
    ModPExact(n);
  }

  lemma ModStep(a: nat, v: nat, r: nat)
    ensures ModP(Times(ModP(a) + v, r)) == ModP(Times(a + v, r))
  {
    ModPExact(a);
    ModPExact((a % P + v) * r);
    ModPExact((a + v) * r);
    ModAdd(a, v, P);
    ModMul(a % P + v, r, P);
    ModMul(a + v, r, P);
  }
}
