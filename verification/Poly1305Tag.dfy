/** From the limb arithmetic to the authenticator: clamping the key, the final reduction, and
    the streaming object, against the value section 2.5 of RFC 8439 defines. */
module Poly1305Tag {
  import opened Arith
  import opened Bytes
  import opened Bits
  import opened Poly1305

  const TWO_TO_128: nat := 0x1_0000_0000_0000_0000_0000_0000_0000_0000

  // ---------- the value RFC 8439 defines ----------

  const CLAMP: nat := 0x0fff_fffc_0fff_fffc_0fff_fffc_0fff_ffff

  function ClampedR(key: seq<byte>): nat
    requires |key| == 32
  {
    And(FromLE(key[..16]), CLAMP)
  }

  /** A block with the bit beyond its last byte set. */
  function BlockValue(block: seq<byte>): nat {
    FromLE(block + [1])
  }

  /** Where the last block of a non-empty message starts. */
  function LastStart(n: nat): (k: nat)
    requires n > 0
    ensures k % 16 == 0 && k < n <= k + 16
  {
    (n - 1) / 16 * 16
  }

  /** The accumulator after every block of the message. */
  function Accumulate(r: nat, msg: seq<byte>): nat
    decreases |msg|, 1
  {
    if msg == [] then 0 else AccumulateLast(r, msg)
  }

  function AccumulateLast(r: nat, msg: seq<byte>): nat
    requires msg != []
    decreases |msg|, 0
  {
    var k := LastStart(|msg|);
    ModP(Times(Accumulate(r, msg[..k]) + BlockValue(msg[k..]), r))
  }

  function Seal(acc: nat, s: nat): (t: seq<byte>)
    ensures |t| == 16
  {
    LE((acc + s) % TWO_TO_128, 16)
  }

  /** The tag of a message under the pair (r, s). */
  function TagOf(r: nat, s: nat, msg: seq<byte>): (t: seq<byte>)
    ensures |t| == 16
  {
    Seal(Accumulate(r, msg), s)
  }

  function Tag(key: seq<byte>, msg: seq<byte>): (t: seq<byte>)
    requires |key| == 32
    ensures |t| == 16
  {
    TagOf(ClampedR(key), FromLE(key[16..]), msg)
  }

  // ---------- the same value as a polynomial in r ----------

  function Power(r: nat, k: nat): nat {
    if k == 0 then 1 else r * Power(r, k - 1)
  }

  function BlockCount(n: nat): nat { (n + 15) / 16 }

  /** The sum over the blocks m_1 .. m_q of m_i * r^(q - i + 1). */
  function Polynomial(r: nat, msg: seq<byte>): nat {
    if msg == [] then 0 else
      var k := Min(16, |msg|);
      BlockValue(msg[..k]) * Power(r, BlockCount(|msg|)) + Polynomial(r, msg[k..])
  }

  lemma {:induction false} PolynomialStep(r: nat, msg: seq<byte>)
    requires msg != []
    ensures var k := LastStart(|msg|);
            Polynomial(r, msg) == (Polynomial(r, msg[..k]) + BlockValue(msg[k..])) * r
  {
    var k := LastStart(|msg|);
    if |msg| <= 16 {
      assert k == 0 && msg[..|msg|] == msg && msg[0..] == msg && msg[|msg|..] == [];
      assert Power(r, 1) == r * Power(r, 0);
    } else {
      var rest := msg[16..];
      PolynomialStep(r, rest);
      CutFirst(msg);
      Distribute(BlockValue(msg[..16]), Power(r, BlockCount(k)), Polynomial(r, rest[..k - 16]),
                 BlockValue(msg[k..]), r);
    }
  }

  lemma CutFirst(msg: seq<byte>)
    requires |msg| > 16
    ensures var k, rest := LastStart(|msg|), msg[16..];
            && LastStart(|rest|) == k - 16 >= 0 && BlockCount(|msg|) == BlockCount(k) + 1
            && rest[..k - 16] == msg[..k][16..] && rest[k - 16..] == msg[k..] && msg[..k][..16] == msg[..16]
  {
  }

  lemma Distribute(b: nat, p: nat, s: nat, v: nat, r: nat)
    ensures b * (r * p) + (s + v) * r == (b * p + s + v) * r
  {
  }

  /** The running accumulator is the polynomial modulo p. */
  lemma {:induction false} AccumulateIsPolynomial(r: nat, msg: seq<byte>)
    ensures Accumulate(r, msg) == Polynomial(r, msg) % P
    decreases |msg|
  {
    if msg != [] {
      var k := LastStart(|msg|);
      AccumulateIsPolynomial(r, msg[..k]);
      PolynomialStep(r, msg);
      ModPExact(Polynomial(r, msg[..k]));
      ModStep(Polynomial(r, msg[..k]), BlockValue(msg[k..]), r);
      ModPExact(Polynomial(r, msg));
    }
  }

  /** The tag is the polynomial in the clamped r, reduced modulo p, plus s, modulo 2^128. */
  lemma TagIsPolynomial(key: seq<byte>, msg: seq<byte>)
    requires |key| == 32
    ensures Tag(key, msg) == LE((Polynomial(ClampedR(key), msg) % P + FromLE(key[16..])) % TWO_TO_128, 16)
  {
    AccumulateIsPolynomial(ClampedR(key), msg);
  }

  // ---------- the one-time key ----------

  /** `Poly1305::new`: r clamped while it is split into limbs. */
  function KeyLimbs(key: seq<byte>): Limbs
    requires |key| == 32
  {
    Limbs(And(Word(key, 0), 0x3ff_ffff),
          And(Word(key, 3) / 4, 0x3ff_ff03),
          And(Word(key, 6) / 0x10, 0x3ff_c0ff),
          And(Word(key, 9) / 0x40, 0x3f0_3fff),
          And(Word(key, 12) / 0x100, 0x00f_ffff))
  }

  /** The unclamped limbs. */
  function RawLimbs(key: seq<byte>): Limbs
    requires |key| >= 16
  {
    Limbs(Low26(Word(key, 0)), Low26(Word(key, 3) / 4), Low26(Word(key, 6) / 0x10),
          Low26(Word(key, 9) / 0x40), Low26(Word(key, 12) / 0x100))
  }

  /** A mask below 2^26 sees only the low 26 bits. */
  lemma MaskLow(a: nat, m: nat)
    requires m < 0x400_0000
    ensures And(a, m) == And(Low26(a), m) <= m
  {
    Pow2Values();
    ZipFields(AndGate, Low26(a), a / 0x400_0000, m, 0, 26, 0x400_0000);
    ZeroAnd(a / 0x400_0000);
    AndAtMost(a, m);
  }

  lemma AndLimb(a: nat, b: nat, c: nat, d: nat)
    requires a < 0x400_0000 && c < 0x400_0000
    ensures And(a + 0x400_0000 * b, c + 0x400_0000 * d) == And(a, c) + 0x400_0000 * And(b, d)
  {
    Pow2Values();
    ZipFields(AndGate, a, b, c, d, 26, 0x400_0000);
  }

  function Join(a: nat, b: nat): nat { a + 0x400_0000 * b }

  function Horner(l: Limbs): nat {
    Join(l.l0, Join(l.l1, Join(l.l2, Join(l.l3, l.l4))))
  }

  lemma HornerIsVal(l: Limbs)
    ensures Horner(l) == Val(l)
  {
  }

  function Each(op: (nat, nat) -> nat, a: Limbs, m: Limbs): Limbs {
    Limbs(op(a.l0, m.l0), op(a.l1, m.l1), op(a.l2, m.l2), op(a.l3, m.l3), op(a.l4, m.l4))
  }

  ghost predicate Fieldwise(op: (nat, nat) -> nat) {
    forall a: nat, b: nat, c: nat, d: nat :: a < 0x400_0000 && c < 0x400_0000 ==>
      op(Join(a, b), Join(c, d)) == Join(op(a, c), op(b, d))
  }

  lemma HornerEach(op: (nat, nat) -> nat, a: Limbs, m: Limbs)
    requires Fieldwise(op) && Under26(a) && Under26(m)
    ensures op(Horner(a), Horner(m)) == Horner(Each(op, a, m))
  {
  }

  lemma AndFieldwise()
    ensures Fieldwise(And)
  {
    forall a: nat, b: nat, c: nat, d: nat | a < 0x400_0000 && c < 0x400_0000
      ensures And(Join(a, b), Join(c, d)) == Join(And(a, c), And(b, d))
    {
      AndLimb(a, b, c, d);
    }
  }

  /** Masking limb by limb masks the number. */
  lemma AndLimbs(a: Limbs, m: Limbs)
    requires Under26(a) && Under26(m)
    ensures And(Val(a), Val(m)) == Val(Each(And, a, m))
  {
    AndFieldwise();
    HornerEach(And, a, m);
    HornerIsVal(a);
    HornerIsVal(m);
    HornerIsVal(Each(And, a, m));
  }

  lemma ShiftAndKeep(w: nat, d: nat, low: nat, limb: nat, high: nat)
    requires d > 0 && low < d && limb < 0x400_0000 && w == d * (0x400_0000 * high + limb) + low
    ensures Low26(w / d) == limb
  {
    DivUnique(w, d, 0x400_0000 * high + limb, low);
    DivUnique(0x400_0000 * high + limb, 0x400_0000, high, limb);
  }

  /** The limbs spelled out in bytes. */
  function ByteLimbs(k: seq<byte>): Limbs
    requires |k| >= 16
  {
    Limbs(k[0] + 0x100 * (k[1] as int) + 0x1_0000 * (k[2] as int) + 0x100_0000 * ((k[3] as int) % 4),
          k[3] / 4 + 0x40 * (k[4] as int) + 0x4000 * (k[5] as int) + 0x40_0000 * ((k[6] as int) % 0x10),
          k[6] / 0x10 + 0x10 * (k[7] as int) + 0x1000 * (k[8] as int) + 0x10_0000 * ((k[9] as int) % 0x40),
          k[9] / 0x40 + 4 * (k[10] as int) + 0x400 * (k[11] as int) + 0x4_0000 * (k[12] as int),
          k[13] + 0x100 * (k[14] as int) + 0x1_0000 * (k[15] as int))
  }

  lemma RawByte0(k: seq<byte>)
    requires |k| >= 16
    ensures Low26(Word(k, 0)) == ByteLimbs(k).l0
  {
    ShiftAndKeep(Word(k, 0), 1, 0, ByteLimbs(k).l0, (k[3] as int) / 4);
  }

  lemma RawByte1(k: seq<byte>)
    requires |k| >= 16
    ensures Low26(Word(k, 3) / 4) == ByteLimbs(k).l1
  {
    ShiftAndKeep(Word(k, 3), 4, k[3] as int % 4, ByteLimbs(k).l1, k[6] as int / 0x10);
  }

  lemma RawByte2(k: seq<byte>)
    requires |k| >= 16
    ensures Low26(Word(k, 6) / 0x10) == ByteLimbs(k).l2
  {
    ShiftAndKeep(Word(k, 6), 0x10, k[6] as int % 0x10, ByteLimbs(k).l2, k[9] as int / 0x40);
  }

  lemma RawByte3(k: seq<byte>)
    requires |k| >= 16
    ensures Low26(Word(k, 9) / 0x40) == ByteLimbs(k).l3
  {
    ShiftAndKeep(Word(k, 9), 0x40, k[9] as int % 0x40, ByteLimbs(k).l3, 0);
  }

  lemma RawByte4(k: seq<byte>)
    requires |k| >= 16
    ensures Low26(Word(k, 12) / 0x100) == ByteLimbs(k).l4
  {
    ShiftAndKeep(Word(k, 12), 0x100, k[12] as int, ByteLimbs(k).l4, 0);
  }

  lemma RawIsBytes(key: seq<byte>)
    requires |key| >= 16
    ensures RawLimbs(key) == ByteLimbs(key)
  {
    RawByte0(key);
    RawByte1(key);
    RawByte2(key);
    RawByte3(key);
    RawByte4(key);
  }

  lemma BytesAreWords(k: seq<byte>)
    requires |k| >= 16
    ensures Val(ByteLimbs(k)) == Words(Word(k, 0), Word(k, 4), Word(k, 8), Word(k, 12))
  {
  }

  lemma WordInPrefix(k: seq<byte>, i: nat)
    requires |k| >= 16 && i <= 12
    ensures Word(k[..16], i) == Word(k, i)
  {
    assert k[..16][i..i + 4] == k[i..i + 4];
  }

  /** The overlapping words of the key cover its sixteen bytes exactly once. */
  lemma RawLimbsExact(key: seq<byte>)
    requires |key| >= 16
    ensures Under26(RawLimbs(key)) && Val(RawLimbs(key)) == FromLE(key[..16])
  {
    RawIsBytes(key);
    BytesAreWords(key);
    WordInPrefix(key, 0);
    WordInPrefix(key, 4);
    WordInPrefix(key, 8);
    WordInPrefix(key, 12);
    WordsAreBytes(key[..16]);
  }

  /** The limbs of the key are the clamped r of the standard. */
  lemma KeyLimbsExact(key: seq<byte>)
    requires |key| == 32
    ensures Under26(KeyLimbs(key)) && Val(KeyLimbs(key)) == ClampedR(key)
  {
    MaskLow(Word(key, 0), 0x3ff_ffff);
    MaskLow(Word(key, 3) / 4, 0x3ff_ff03);
    MaskLow(Word(key, 6) / 0x10, 0x3ff_c0ff);
    MaskLow(Word(key, 9) / 0x40, 0x3f0_3fff);
    MaskLow(Word(key, 12) / 0x100, 0x00f_ffff);
    RawLimbsExact(key);
    var m := Limbs(0x3ff_ffff, 0x3ff_ff03, 0x3ff_c0ff, 0x3f0_3fff, 0x00f_ffff);
    assert Val(m) == CLAMP;
    AndLimbs(RawLimbs(key), m);
  }

  // ---------- the final reduction ----------

  function Top(x: nat): nat { U32(x) / 0x400_0000 }

  /** The carries of the full carry at the start of `finalize`, limb 1 upwards and round to limb 0. */
  function FullCarries(h: Limbs): Chain {
    var c1 := Top(h.l1);
    var c2 := Top(h.l2 + c1);
    var c3 := Top(h.l3 + c2);
    var c4 := Top(h.l4 + c3);
    Chain(Top(h.l0 + U32(c4 * 5)), c1, c2, c3, c4)
  }

  function FullSettle(h: Limbs, k: Chain): Limbs {
    Limbs(Low26(U32(h.l0 + U32(k.c4 * 5))), U32(Low26(h.l1) + k.c0), Low26(U32(h.l2 + k.c1)),
          Low26(U32(h.l3 + k.c2)), Low26(U32(h.l4 + k.c3)))
  }

  function FullCarry(h: Limbs): Limbs {
    FullSettle(h, FullCarries(h))
  }

  lemma CarryBit(x: nat)
    requires x < 0x800_0000
    ensures Top(x) <= 1 && x == Low26(x) + 0x400_0000 * Top(x)
  {
  }

  lemma NoWrap(x: nat)
    requires x < 0x800_0000
    ensures U32(x) == x
  {
  }

  ghost predicate FullCarried(h: Limbs, k: Chain) {
    && h.l1 == Low26(h.l1) + 0x400_0000 * k.c1 && h.l2 + k.c1 == Low26(h.l2 + k.c1) + 0x400_0000 * k.c2
    && h.l3 + k.c2 == Low26(h.l3 + k.c2) + 0x400_0000 * k.c3
    && h.l4 + k.c3 == Low26(h.l4 + k.c3) + 0x400_0000 * k.c4
    && h.l0 + k.c4 * 5 == Low26(h.l0 + k.c4 * 5) + 0x400_0000 * k.c0
    && k.c0 <= 1 && k.c1 <= 1 && k.c2 <= 1 && k.c3 <= 1 && k.c4 <= 1
  }

  lemma FullCarriesExact(h: Limbs)
    requires Reduced(h)
    ensures FullCarried(h, FullCarries(h))
  {
    var k := FullCarries(h);
    CarryBit(h.l1);
    CarryBit(h.l2 + k.c1);
    CarryBit(h.l3 + k.c2);
    CarryBit(h.l4 + k.c3);
    NoWrap(k.c4 * 5);
    CarryBit(h.l0 + k.c4 * 5);
  }

  /** If every carry fires, limb 1 was left nearly empty, so the last carry cannot overflow it. */
  lemma FullCarrySum(h: Limbs, low: Limbs, k: Chain)
    requires Reduced(h) && Under26(low) && k.c0 <= 1 && k.c1 <= 1 && k.c2 <= 1 && k.c3 <= 1 && k.c4 <= 1
    requires h.l1 == low.l1 + 0x400_0000 * k.c1 && h.l2 + k.c1 == low.l2 + 0x400_0000 * k.c2
    requires h.l3 + k.c2 == low.l3 + 0x400_0000 * k.c3 && h.l4 + k.c3 == low.l4 + 0x400_0000 * k.c4
    requires h.l0 + k.c4 * 5 == low.l0 + 0x400_0000 * k.c0
    ensures low.l1 + k.c0 < 0x400_0000
    ensures Val(low.(l1 := low.l1 + k.c0)) + P * k.c4 == Val(h)
  {
  }

  lemma FullSettleIs(h: Limbs, k: Chain, low: Limbs)
    requires Reduced(h) && FullCarried(h, k)
    requires low == Limbs(Low26(h.l0 + k.c4 * 5), Low26(h.l1), Low26(h.l2 + k.c1), Low26(h.l3 + k.c2), Low26(h.l4 + k.c3))
    ensures FullSettle(h, k) == low.(l1 := low.l1 + k.c0) && Under26(low)
  {
    NoWrap(k.c4 * 5);
    NoWrap(h.l0 + k.c4 * 5);
    NoWrap(Low26(h.l1) + k.c0);
    NoWrap(h.l2 + k.c1);
    NoWrap(h.l3 + k.c2);
    NoWrap(h.l4 + k.c3);
  }

  lemma FullSettleExact(h: Limbs, k: Chain)
    requires Reduced(h) && FullCarried(h, k)
    ensures Under26(FullSettle(h, k)) && Val(FullSettle(h, k)) + P * k.c4 == Val(h)
  {
    var low := Limbs(Low26(h.l0 + k.c4 * 5), Low26(h.l1), Low26(h.l2 + k.c1), Low26(h.l3 + k.c2), Low26(h.l4 + k.c3));
    FullSettleIs(h, k, low);
    FullCarrySum(h, low, k);
  }

  lemma FullCarryExact(h: Limbs)
    requires Reduced(h)
    ensures Under26(FullCarry(h)) && Val(FullCarry(h)) + P * FullCarries(h).c4 == Val(h)
  {
    FullCarriesExact(h);
    FullSettleExact(h, FullCarries(h));
  }

  /** The carries of h + 5. */
  function PlusFive(h: Limbs): Chain {
    var c0 := Top(h.l0 + 5);
    var c1 := Top(h.l1 + c0);
    var c2 := Top(h.l2 + c1);
    Chain(c0, c1, c2, Top(h.l3 + c2), 0)
  }

  /** h + 5 - 2^130, the top limb wrapping when that is negative. */
  function LessP(h: Limbs): Limbs {
    var k := PlusFive(h);
    Limbs(Low26(U32(h.l0 + 5)), Low26(U32(h.l1 + k.c0)), Low26(U32(h.l2 + k.c1)), Low26(U32(h.l3 + k.c2)),
          U32(U32(h.l4 + k.c3) + 0x1_0000_0000 - 0x400_0000))
  }

  lemma PlusFiveSum(h: Limbs, low: Limbs, k: Chain)
    requires Under26(h) && Under26(low) && k.c3 <= 1
    requires h.l0 + 5 == low.l0 + 0x400_0000 * k.c0 && h.l1 + k.c0 == low.l1 + 0x400_0000 * k.c1
    requires h.l2 + k.c1 == low.l2 + 0x400_0000 * k.c2 && h.l3 + k.c2 == low.l3 + 0x400_0000 * k.c3
    ensures Val(h) >= P <==> h.l4 + k.c3 >= 0x400_0000
    ensures Val(h) >= P ==> h.l4 + k.c3 == 0x400_0000 && Val(low.(l4 := 0)) + P == Val(h)
  {
  }

  lemma TopLimb(x: nat)
    requires x <= 0x400_0000
    ensures U32(U32(x) + 0x1_0000_0000 - 0x400_0000) == if x == 0x400_0000 then 0 else x + 0xfc00_0000
  {
  }

  lemma LessPExact(h: Limbs)
    requires Under26(h)
    ensures Val(h) >= P ==> LessP(h).l4 < 0x8000_0000 && Under26(LessP(h)) && Val(LessP(h)) + P == Val(h)
    ensures Val(h) < P ==> 0x8000_0000 <= LessP(h).l4 < 0x1_0000_0000
  {
    var k := PlusFive(h);
    CarryBit(h.l0 + 5);
    NoWrap(h.l0 + 5);
    CarryBit(h.l1 + k.c0);
    NoWrap(h.l1 + k.c0);
    CarryBit(h.l2 + k.c1);
    NoWrap(h.l2 + k.c1);
    CarryBit(h.l3 + k.c2);
    NoWrap(h.l3 + k.c2);
    TopLimb(h.l4 + k.c3);
    PlusFiveSum(h, LessP(h).(l4 := 0), k);
  }

  /** `(h & !mask) | (g & mask)`. */
  function Pick(mask: nat, h: nat, g: nat): nat
    requires mask <= 0xffff_ffff
  {
    Or(And(h, 0xffff_ffff - mask), And(g, mask))
  }

  lemma PickOne(h: nat, g: nat)
    requires h < 0x400_0000
    ensures Pick(0, h, g) == h
    ensures g < 0x400_0000 ==> Pick(0xffff_ffff, h, g) == g
  {
    Pow2Values();
    AndMask(h, 32, 0x1_0000_0000);
    AndMask(g, 32, 0x1_0000_0000);
    ZeroAnd(h);
    ZeroAnd(g);
    ZeroOr(h);
    ZeroOr(g);
  }

  /** All ones when the top bit is clear, else zero: `(g4 >> 31).wrapping_sub(1)`. */
  function MaskOf(g4: nat): (m: nat)
    ensures m <= 0xffff_ffff
    ensures g4 < 0x1_0000_0000 ==> m == if g4 < 0x8000_0000 then 0xffff_ffff else 0
  {
    U32(g4 / 0x8000_0000 + 0xffff_ffff)
  }

  function Freeze(h: Limbs): Limbs {
    var g := LessP(h);
    var mask := MaskOf(g.l4);
    Limbs(Pick(mask, h.l0, g.l0), Pick(mask, h.l1, g.l1), Pick(mask, h.l2, g.l2),
          Pick(mask, h.l3, g.l3), Pick(mask, h.l4, g.l4))
  }

  lemma PickAll(h: Limbs, g: Limbs, m: nat)
    requires Under26(h)
    requires if m == 0 then true else m == 0xffff_ffff && Under26(g)
    ensures Limbs(Pick(m, h.l0, g.l0), Pick(m, h.l1, g.l1), Pick(m, h.l2, g.l2),
                  Pick(m, h.l3, g.l3), Pick(m, h.l4, g.l4)) == if m == 0 then h else g
  {
    PickOne(h.l0, g.l0);
    PickOne(h.l1, g.l1);
    PickOne(h.l2, g.l2);
    PickOne(h.l3, g.l3);
    PickOne(h.l4, g.l4);
  }

  lemma SmallMod(n: nat)
    ensures n < P ==> n % P == n
    ensures P <= n < 2 * P ==> n % P == n - P
  {
  }

  /** The masked selection leaves the least residue. */
  lemma FreezeExact(h: Limbs)
    requires Under26(h)
    ensures Under26(Freeze(h)) && Val(Freeze(h)) == Val(h) % P
  {
    LessPExact(h);
    PickAll(h, LessP(h), MaskOf(LessP(h).l4));
    SmallMod(Val(h));
  }

  // ---------- the tag ----------

  datatype Quad = Quad(w0: nat, w1: nat, w2: nat, w3: nat)

  function QuadVal(w: Quad): nat {
    Words(w.w0, w.w1, w.w2, w.w3)
  }

  ghost predicate Words32(w: Quad) {
    w.w0 < 0x1_0000_0000 && w.w1 < 0x1_0000_0000 && w.w2 < 0x1_0000_0000 && w.w3 < 0x1_0000_0000
  }

  /** Five 26-bit limbs into four 32-bit words; what lies beyond bit 128 is dropped. */
  function Repack(h: Limbs): Quad {
    Quad(Or(h.l0, U32(h.l1 * 0x400_0000)), Or(h.l1 / 0x40, U32(h.l2 * 0x10_0000)),
         Or(h.l2 / 0x1000, U32(h.l3 * 0x4000)), Or(h.l3 / 0x4_0000, U32(h.l4 * 0x100)))
  }

  /** The fields being joined do not overlap. */
  lemma RepackFits(h: Limbs)
    requires Under26(h)
    ensures Or(h.l0, U32(h.l1 * 0x400_0000)) == h.l0 + h.l1 % 0x40 * 0x400_0000 < 0x1_0000_0000
    ensures Or(h.l1 / 0x40, U32(h.l2 * 0x10_0000)) == h.l1 / 0x40 + h.l2 % 0x1000 * 0x10_0000 < 0x1_0000_0000
    ensures Or(h.l2 / 0x1000, U32(h.l3 * 0x4000)) == h.l2 / 0x1000 + h.l3 % 0x4_0000 * 0x4000 < 0x1_0000_0000
    ensures Or(h.l3 / 0x4_0000, U32(h.l4 * 0x100)) == h.l3 / 0x4_0000 + h.l4 % 0x100_0000 * 0x100 < 0x1_0000_0000
  {
    Pow2Values();
    Splice(h.l0, h.l1, 26, 0x400_0000, 0x40);
    Splice(h.l1 / 0x40, h.l2, 20, 0x10_0000, 0x1000);
    Splice(h.l2 / 0x1000, h.l3, 14, 0x4000, 0x4_0000);
    Splice(h.l3 / 0x4_0000, h.l4, 8, 0x100, 0x100_0000);
  }

  lemma RepackExact(h: Limbs)
    requires Under26(h)
    ensures Words32(Repack(h))
    ensures QuadVal(Repack(h)) + TWO_TO_128 * (h.l4 / 0x100_0000) == Val(h)
  {
    RepackFits(h);
  }

  /** Word by word addition with carry, modulo 2^128. */
  function AddWords(a: Quad, b: Quad): Quad {
    var f0 := a.w0 + b.w0;
    var f1 := a.w1 + b.w1 + f0 / 0x1_0000_0000;
    var f2 := a.w2 + b.w2 + f1 / 0x1_0000_0000;
    var f3 := a.w3 + b.w3 + f2 / 0x1_0000_0000;
    Quad(U32(f0), U32(f1), U32(f2), U32(f3))
  }

  lemma KeepLow(x: nat)
    ensures U32(x) == x - 0x1_0000_0000 * (x / 0x1_0000_0000)
  {
  }

  lemma AddWordsExact(a: Quad, b: Quad) returns (c: nat)
    ensures QuadVal(AddWords(a, b)) + TWO_TO_128 * c == QuadVal(a) + QuadVal(b)
  {
    var f0 := a.w0 + b.w0;
    var f1 := a.w1 + b.w1 + f0 / 0x1_0000_0000;
    var f2 := a.w2 + b.w2 + f1 / 0x1_0000_0000;
    var f3 := a.w3 + b.w3 + f2 / 0x1_0000_0000;
    KeepLow(f0);
    KeepLow(f1);
    KeepLow(f2);
    KeepLow(f3);
    c := f3 / 0x1_0000_0000;
    CarryWords(a, b, AddWords(a, b), f0 / 0x1_0000_0000, f1 / 0x1_0000_0000, f2 / 0x1_0000_0000, c);
  }

  lemma CarryWords(a: Quad, b: Quad, w: Quad, c0: nat, c1: nat, c2: nat, c3: nat)
    requires w.w0 == a.w0 + b.w0 - 0x1_0000_0000 * c0 && w.w1 == a.w1 + b.w1 + c0 - 0x1_0000_0000 * c1
    requires w.w2 == a.w2 + b.w2 + c1 - 0x1_0000_0000 * c2 && w.w3 == a.w3 + b.w3 + c2 - 0x1_0000_0000 * c3
    ensures QuadVal(w) + TWO_TO_128 * c3 == QuadVal(a) + QuadVal(b)
  {
  }

  function QuadBytes(w: Quad): (s: seq<byte>)
    ensures |s| == 16
  {
    LE(w.w0, 4) + LE(w.w1, 4) + LE(w.w2, 4) + LE(w.w3, 4)
  }

  lemma QuadBytesExact(w: Quad)
    requires Words32(w)
    ensures QuadBytes(w) == LE(QuadVal(w), 16)
  {
    var s := QuadBytes(w);
    assert s[0..4] == LE(w.w0, 4) && s[4..8] == LE(w.w1, 4) && s[8..12] == LE(w.w2, 4) && s[12..16] == LE(w.w3, 4);
    U32RoundTrip(w.w0);
    U32RoundTrip(w.w1);
    U32RoundTrip(w.w2);
    U32RoundTrip(w.w3);
    WordsAreBytes(s);
    FromLERoundTrip(s);
  }

  lemma AddWordsFit(a: Quad, b: Quad)
    ensures Words32(AddWords(a, b))
  {
  }

  lemma LowPart(w: Quad, c: nat, n: nat)
    requires Words32(w) && n == QuadVal(w) + TWO_TO_128 * c
    ensures n % TWO_TO_128 == QuadVal(w)
  {
    DivUnique(n, TWO_TO_128, c, QuadVal(w));
  }

  /** Adding the pad is addition modulo 2^128. */
  lemma TagAdd(q: Quad, s: Quad, d: nat, v: nat)
    requires QuadVal(q) + TWO_TO_128 * d == v
    ensures Words32(AddWords(q, s)) && QuadVal(AddWords(q, s)) == (v + QuadVal(s)) % TWO_TO_128
  {
    AddWordsFit(q, s);
    var c := AddWordsExact(q, s);
    LowPart(AddWords(q, s), c + d, v + QuadVal(s));
  }

  /** The least residue `finalize` leaves in the limbs. */
  method Residue(h: Limbs, ghost acc: nat) returns (f: Limbs)
    requires Stands(h, acc)
    ensures Under26(f) && Val(f) == acc
  {
    FullCarryExact(h);
    Congruence(Val(FullCarry(h)), FullCarries(h).c4, 0, Val(h));
    ModPExact(Val(FullCarry(h)));
    FreezeExact(FullCarry(h));
    f := Freeze(FullCarry(h));
  }

  method PackWords(f: Limbs) returns (q: Quad, ghost d: nat)
    requires Under26(f)
    ensures QuadVal(q) + TWO_TO_128 * d == Val(f)
  {
    RepackExact(f);
    q, d := Repack(f), f.l4 / 0x100_0000;
  }

  method AddPad(q: Quad, pad: Quad, ghost d: nat, ghost v: nat, ghost s: nat) returns (w: Quad)
    requires QuadVal(q) + TWO_TO_128 * d == v && QuadVal(pad) == s
    ensures Words32(w) && QuadVal(w) == (v + s) % TWO_TO_128
  {
    TagAdd(q, pad, d, v);
    w := AddWords(q, pad);
  }

  method WriteWords(w: Quad, ghost n: nat) returns (tag: seq<byte>)
    requires Words32(w) && QuadVal(w) == n
    ensures tag == LE(n, 16)
  {
    QuadBytesExact(w);
    tag := QuadBytes(w);
  }

  /** `finalize` after the last block: reduce, repack, add the pad, write the words out. */
  method FinishTag(h: Limbs, pad: Quad, ghost acc: nat, ghost s: nat) returns (tag: seq<byte>)
    requires Stands(h, acc) && QuadVal(pad) == s
    ensures tag == Seal(acc, s)
  {
    var f := Residue(h, acc);
    var q, d := PackWords(f);
    var w := AddPad(q, pad, d, acc, s);
    tag := WriteWords(w, (acc + s) % TWO_TO_128);
  }
}
