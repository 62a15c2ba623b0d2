/** Confidential transactions (`ctx.rs`): everything `build` emits is accepted by `verify`.
    The hash and the seeded random generator are parameters. Nothing here needs p to be
    prime: the inverse p - 2 works on the subgroup because its order divides p - 1. */
module Ctx {
  import opened Arith
  import opened Bits
  import opened Bytes
  import opened ModGroup

  // ---------- residues ----------

  /** x modulo q, for any integer: `x % q`, unfolded only by `RedExact`. */
  function Red(x: int, q: nat): nat
    requires q > 0
    decreases if x < 0 then -x else x, 1
  {
    RedSteps(x, q)
  }

  function RedSteps(x: int, q: nat): nat
    requires q > 0
    decreases if x < 0 then -x else x, 0
  {
    if x + q < 0 then Red(x + q, q) else if x < 0 then x + q
    else if x >= q then Red(x - q, q) else x
  }

  lemma {:induction false} RedExact(x: int, q: nat)
    requires q > 0
    ensures Red(x, q) == x % q
    decreases if x < 0 then -x else x
  {
    assert Red(x, q) == RedSteps(x, q);
    if x + q < 0 {
      RedExact(x + q, q);
      ModCongruent(x + q, x, q, 1);
    } else if x < 0 {
      DivUnique(x, q, -1, x + q);
    } else if x >= q {
      RedExact(x - q, q);
      ModCongruent(x - q, x, q, -1);
    } else {
      DivUnique(x, q, 0, x);
    }
  }

  /** Congruent integers have the same residue. */
  lemma RedCongruent(x: int, y: int, q: nat, k: int)
    requires q > 0 && x == y + q * k
    ensures Red(x, q) == Red(y, q) < q
  {
    RedExact(x, q);
    RedExact(y, q);
    ModCongruent(x, y, q, k);
  }

  lemma RedSmall(x: nat, q: nat)
    requires x < q
    ensures Red(x, q) == x
  {
    RedExact(x, q);
    DivUnique(x, q, 0, x);
  }

  /** An integer is its residue plus a multiple of q. */
  lemma RedQuotient(x: int, q: nat) returns (k: int)
    requires q > 0
    ensures x == Red(x, q) + q * k && Red(x, q) < q
  {
    RedExact(x, q);
    k := x / q;
  }

  lemma RedAdd(x: int, y: int, q: nat)
    requires q > 0
    ensures Red(Red(x, q) + Red(y, q), q) == Red(x + y, q)
  {
    var k := RedQuotient(x, q);
    var l := RedQuotient(y, q);
    assert q * (k + l) == q * k + q * l;
    RedCongruent(x + y, Red(x, q) + Red(y, q), q, k + l);
  }

  lemma RedTimes(x: int, n: int, q: nat)
    requires q > 0
    ensures Red(Red(x, q) * n, q) == Red(x * n, q)
  {
    var k := RedQuotient(x, q);
    Expand(Red(x, q), q, k, n);
    RedCongruent(x * n, Red(x, q) * n, q, k * n);
  }

  lemma Expand(r: int, q: int, k: int, n: int)
    ensures (r + q * k) * n == r * n + q * (k * n)
  {
    assert (r + q * k) * n == r * n + q * k * n;
  }

  // ---------- the commitment group ----------

  /** A Schnorr group of order q modulo p with two generators. */
  datatype Pedersen = Pedersen(p: nat, q: nat, g: nat, h: nat)

  /** What the group parameters guarantee: p = cofactor * q + 1, both generators in the subgroup,
      and products of residues fit in 128 bits. */
  ghost predicate Good(G: Pedersen, cofactor: nat) {
    && G.q > 0 && cofactor > 0 && G.p == cofactor * G.q + 1 && G.p < 0x1_0000_0000_0000_0000
    && G.p > 1 && G.g < G.p && G.h < G.p && G.q < 0x1_0000_0000_0000_0000
    && Exp(G.p, G.g, G.q) == 1 && Exp(G.p, G.h, G.q) == 1
  }

  predicate Usable(G: Pedersen) { G.p > 1 && G.q > 0 }

  function Pow(G: Pedersen, b: nat, e: nat): nat
    requires Usable(G)
  {
    Exp(G.p, b, Red(e, G.q))
  }

  function ExpG(G: Pedersen, e: nat): nat requires Usable(G) { Pow(G, G.g, e) }
  function ExpH(G: Pedersen, e: nat): nat requires Usable(G) { Pow(G, G.h, e) }

  function Inv(G: Pedersen, a: nat): nat
    requires Usable(G)
  {
    Exp(G.p, a, G.p - 2)
  }

  function SubQ(G: Pedersen, a: nat, b: nat): nat
    requires Usable(G)
  {
    RedBelow(b, G.q);
    Red(Red(a, G.q) + (G.q - Red(b, G.q)), G.q)
  }

  lemma RedBelow(x: int, q: nat)
    requires q > 0
    ensures Red(x, q) < q
  {
    RedExact(x, q);
  }

  /** `C(v, r) = g^v * h^r mod p`. */
  function Commit(G: Pedersen, v: nat, r: nat): nat
    requires Usable(G)
  {
    Mul(G.p, ExpG(G, v), ExpH(G, r))
  }

  /** The element with exponents x and y, which may be any integers. */
  ghost function Elem(G: Pedersen, x: int, y: int): nat
    requires Usable(G)
  {
    Mul(G.p, Exp(G.p, G.g, Red(x, G.q)), Exp(G.p, G.h, Red(y, G.q)))
  }

  lemma PowerSum(m: nat, b: nat, q: nat, x: int, y: int)
    requires m > 1 && q > 0 && Exp(m, b, q) == 1
    ensures Mul(m, Exp(m, b, Red(x, q)), Exp(m, b, Red(y, q))) == Exp(m, b, Red(x + y, q))
  {
    ExpAdd(m, b, Red(x, q), Red(y, q));
    RedAdd(x, y, q);
    ExpRed(m, b, q, Red(x, q) + Red(y, q));
  }

  lemma ExpRed(m: nat, b: nat, q: nat, e: nat)
    requires m > 1 && q > 0 && Exp(m, b, q) == 1
    ensures Exp(m, b, Red(e, q)) == Exp(m, b, e)
  {
    RedExact(e, q);
    ExpMod(m, b, q, e);
  }

  lemma PowerTimes(m: nat, b: nat, q: nat, x: int, n: nat)
    requires m > 1 && q > 0 && Exp(m, b, q) == 1
    ensures Exp(m, Exp(m, b, Red(x, q)), n) == Exp(m, b, Red(x * n, q))
  {
    ExpTimes(m, b, Red(x, q), n);
    RedTimes(x, n, q);
    Nonneg(Red(x, q), n);
    ExpRed(m, b, q, Red(x, q) * n);
  }

  lemma Nonneg(a: nat, b: nat)
    ensures a * b >= 0
  {
  }

  /** Commitments multiply by adding exponents: the additive homomorphism. */
  lemma ElemMul(G: Pedersen, cof: nat, x: int, y: int, u: int, v: int)
    requires Good(G, cof)
    ensures Mul(G.p, Elem(G, x, y), Elem(G, u, v)) == Elem(G, x + u, y + v)
  {
    MulSwap(G.p, Exp(G.p, G.g, Red(x, G.q)), Exp(G.p, G.h, Red(y, G.q)),
            Exp(G.p, G.g, Red(u, G.q)), Exp(G.p, G.h, Red(v, G.q)));
    PowerSum(G.p, G.g, G.q, x, u);
    PowerSum(G.p, G.h, G.q, y, v);
  }

  lemma ElemExp(G: Pedersen, cof: nat, x: int, y: int, n: nat)
    requires Good(G, cof)
    ensures Exp(G.p, Elem(G, x, y), n) == Elem(G, x * n, y * n)
  {
    ExpOfProduct(G.p, Exp(G.p, G.g, Red(x, G.q)), Exp(G.p, G.h, Red(y, G.q)), n);
    PowerTimes(G.p, G.g, G.q, x, n);
    PowerTimes(G.p, G.h, G.q, y, n);
  }

  lemma ElemPow(G: Pedersen, cof: nat, x: int, y: int, n: nat)
    requires Good(G, cof)
    ensures Pow(G, Elem(G, x, y), n) == Elem(G, x * n, y * n)
  {
    var e := Red(n, G.q);
    ElemExp(G, cof, x, y, e);
    RedTimes(n, x, G.q);
    RedTimes(n, y, G.q);
    Commute(x, n, e);
    Commute(y, n, e);
  }

  lemma Commute(x: int, n: int, e: int)
    ensures x * n == n * x && x * e == e * x
  {
  }

  /** On the subgroup, raising to p - 2 inverts. */
  lemma ElemInv(G: Pedersen, cof: nat, x: int, y: int)
    requires Good(G, cof)
    ensures Inv(G, Elem(G, x, y)) == Elem(G, -x, -y)
  {
    ElemExp(G, cof, x, y, G.p - 2);
    MinusOne(x, cof, G.q, G.p);
    MinusOne(y, cof, G.q, G.p);
  }

  lemma MinusOne(x: int, cof: nat, q: nat, p: nat)
    requires q > 0 && p == cof * q + 1
    ensures Red(x * (p - 2), q) == Red(-x, q)
  {
    assert x * (p - 2) == x * (cof * q) - x;
    assert x * (cof * q) == q * (x * cof);
    RedCongruent(x * (p - 2), -x, q, x * cof);
  }

  lemma ElemOfG(G: Pedersen, cof: nat)
    requires Good(G, cof)
    ensures G.g == Elem(G, 1, 0)
  {
    ExpStep(G.p, G.g, 1);
    ExpZero(G.p, G.g);
    ExpZero(G.p, G.h);
    MulOne(G.p, G.g);
    ExpRed(G.p, G.g, G.q, 1);
    ExpRed(G.p, G.h, G.q, 0);
  }

  lemma ElemOfH(G: Pedersen, cof: nat, e: nat)
    requires Good(G, cof)
    ensures ExpH(G, e) == Elem(G, 0, e)
  {
    ExpRed(G.p, G.g, G.q, 0);
    ExpZero(G.p, G.g);
    ExpLess(G.p, G.h, Red(e, G.q));
    MulOne(G.p, ExpH(G, e));
  }

  lemma ElemOfGPower(G: Pedersen, cof: nat, e: nat)
    requires Good(G, cof)
    ensures ExpG(G, e) == Elem(G, e, 0)
  {
    ExpRed(G.p, G.h, G.q, 0);
    ExpZero(G.p, G.h);
    ExpLess(G.p, G.g, Red(e, G.q));
    MulOne(G.p, ExpG(G, e));
  }

  lemma ElemOfOne(G: Pedersen, cof: nat)
    requires Good(G, cof)
    ensures Elem(G, 0, 0) == 1
  {
    ElemOfGPower(G, cof, 0);
    ExpRed(G.p, G.g, G.q, 0);
    ExpZero(G.p, G.g);
  }

  /** Exponents matter only modulo q. */
  lemma ElemSame(G: Pedersen, x: int, y: int, u: int, v: int)
    requires Usable(G) && Red(x, G.q) == Red(u, G.q) && Red(y, G.q) == Red(v, G.q)
    ensures Elem(G, x, y) == Elem(G, u, v)
  {
  }

  // ---------- challenges and responses ----------

  function Flatten(elems: seq<nat>): seq<byte> {
    if elems == [] then [] else LE(elems[0], 16) + Flatten(elems[1..])
  }

  /** The first 16 bytes of the digest, modulo q. */
  function Challenge(hash: HashFn, G: Pedersen, tag: seq<byte>, elems: seq<nat>): nat
    requires Usable(G)
  {
    Red(FromLE(hash(tag + Flatten(elems))[..16]), G.q)
  }

  const BIT_TAG: seq<byte> := [98, 105, 116, 58]
  const BALANCE_TAG: seq<byte> := [98, 97, 108, 97, 110, 99, 101, 58]

  lemma TagsSpelled()
    ensures Spells(BIT_TAG, "bit:") && Spells(BALANCE_TAG, "balance:")
    ensures Spells(IN_LABEL, "|in|") && Spells(OUT_LABEL, "|out|") && Spells(BALANCE_LABEL, "|balance")
  {
  }

  /** What is hashed determines every element that fits in 128 bits. */
  lemma {:induction false} FlattenInjective(xs: seq<nat>, ys: seq<nat>)
    requires |xs| == |ys| && Flatten(xs) == Flatten(ys)
    requires forall i :: 0 <= i < |xs| ==> xs[i] < TWO_TO_128 && ys[i] < TWO_TO_128
    ensures xs == ys
    decreases |xs|
  {
    if xs != [] {
      var s, t := Flatten(xs), Flatten(ys);
      assert s[..16] == LE(xs[0], 16) && t[..16] == LE(ys[0], 16) && s[16..] == Flatten(xs[1..]) && t[16..] == Flatten(ys[1..]);
      Width16();
      LEInjective(xs[0], ys[0], 16);
      FlattenInjective(xs[1..], ys[1..]);
      assert xs == [xs[0]] + xs[1..] && ys == [ys[0]] + ys[1..];
    }
  }

  lemma Width16()
    ensures Pow256(16) == TWO_TO_128
  {
    Widths();
    assert Pow256(9) == 0x100_0000_0000_0000_0000 && Pow256(10) == 0x1_0000_0000_0000_0000_0000;
    assert Pow256(12) == 0x1_0000_0000_0000_0000_0000_0000;
    assert Pow256(14) == 0x1_0000_0000_0000_0000_0000_0000_0000;
  }

  /** The n-th 64-bit word a seeded generator yields. */
  type Drng = (seq<byte>, nat) -> u64

  /** `draw`: the n-th residue, from two words. */
  function Draw(rng: Drng, seed: seq<byte>, n: nat, q: nat): nat
    requires q > 0
  {
    Red(0x1_0000_0000_0000_0000 * rng(seed, 2 * n + 1) as int + rng(seed, 2 * n), q)
  }

  /** Two words, the second above the first. */
  lemma DrawExact(rng: Drng, seed: seq<byte>, n: nat, q: nat)
    requires q > 0
    ensures Draw(rng, seed, n, q) == (rng(seed, 2 * n) as int + 0x1_0000_0000_0000_0000 * rng(seed, 2 * n + 1) as int) % q
  {
    RedExact(0x1_0000_0000_0000_0000 * rng(seed, 2 * n + 1) as int + rng(seed, 2 * n), q);
  }

  /** `(k + c * (r % q) % q) % q`. */
  function Response(G: Pedersen, k: nat, c: nat, r: nat): nat
    requires Usable(G)
  {
    Red(k + Mul(G.q, c, Red(r, G.q)), G.q)
  }

  lemma ResponseExact(G: Pedersen, k: nat, c: nat, r: nat)
    requires Usable(G)
    ensures Red(Response(G, k, c, r), G.q) == Red(k + r * c, G.q)
  {
    var q := G.q;
    MulIsRed(q, c, r);
    RedAddRight(k, r * c, q);
    RedTwice(k + r * c, q);
  }

  lemma MulIsRed(q: nat, c: nat, r: nat)
    requires q > 0
    ensures Mul(q, c, Red(r, q)) == Red(r * c, q)
  {
    MulExact(q, c, Red(r, q));
    RedExact(c * Red(r, q), q);
    RedTimes(r, c, q);
    Commute(Red(r, q), c, c);
  }

  lemma RedTwice(x: int, q: nat)
    requires q > 0
    ensures Red(Red(x, q), q) == Red(x, q)
  {
    RedBelow(x, q);
    RedSmall(Red(x, q), q);
  }

  lemma RedAddRight(x: int, y: int, q: nat)
    requires q > 0
    ensures Red(x + Red(y, q), q) == Red(x + y, q)
  {
    var k := RedQuotient(y, q);
    RedCongruent(x + y, x + Red(y, q), q, k);
  }

  /** The Schnorr equation, for a y that is a power of h. */
  lemma SchnorrHolds(G: Pedersen, cof: nat, k: nat, c: nat, r: nat, y: nat)
    requires Good(G, cof) && y == Elem(G, 0, r)
    ensures ExpH(G, Response(G, k, c, r)) == Mul(G.p, ExpH(G, k), Pow(G, y, c))
  {
    ElemOfH(G, cof, Response(G, k, c, r));
    ElemOfH(G, cof, k);
    ElemPow(G, cof, 0, r, c);
    ElemMul(G, cof, 0, k, 0 * c, r * c);
    ResponseExact(G, k, c, r);
    ElemSame(G, 0, Response(G, k, c, r), 0, k + r * c);
  }

  /** The simulated equation, for any y in the subgroup. */
  lemma SimulationHolds(G: Pedersen, cof: nat, c: nat, s: nat, x: int, r: int, y: nat)
    requires Good(G, cof) && y == Elem(G, x, r)
    ensures ExpH(G, s) == Mul(G.p, Mul(G.p, ExpH(G, s), Inv(G, Pow(G, y, c))), Pow(G, y, c))
  {
    ElemOfH(G, cof, s);
    ElemPow(G, cof, x, r, c);
    ElemInv(G, cof, x * c, r * c);
    ElemMul(G, cof, 0, s, -(x * c), -(r * c));
    ElemMul(G, cof, -(x * c), s - r * c, x * c, r * c);
  }

  /** `c0 + c1` wraps at 128 bits; for shares below q it does not. */
  function ShareSum(G: Pedersen, c0: nat, c1: nat): nat
    requires Usable(G)
  {
    Red(Red(c0 + c1, TWO_TO_128), G.q)
  }

  lemma SharesMeet(G: Pedersen, cof: nat, total: nat, c: nat)
    requires Good(G, cof) && total < G.q && c < G.q
    ensures ShareSum(G, SubQ(G, total, c), c) == total && ShareSum(G, c, SubQ(G, total, c)) == total
  {
    var q := G.q;
    RedSmall(total, q);
    RedSmall(c, q);
    var d := SubQ(G, total, c);
    var k := RedQuotient(total + (q - c), q);
    RedSmall(d + c, TWO_TO_128);
    RedCongruent(total, d + c, q, k - 1);
  }

  // ---------- one-of-two proofs ----------

  datatype BitProof = BitProof(a0: nat, a1: nat, c0: nat, c1: nat, s0: nat, s1: nat)

  /** c / g. */
  function Shifted(G: Pedersen, c: nat): nat
    requires Usable(G)
  {
    Mul(G.p, c, Inv(G, G.g))
  }

  function BitChallenge(hash: HashFn, G: Pedersen, c: nat, a0: nat, a1: nat): nat
    requires Usable(G)
  {
    Challenge(hash, G, BIT_TAG, [c, c, Shifted(G, c), a0, a1])
  }

  /** What the challenge of a bit proof is hashed from. */
  function BitTranscript(G: Pedersen, c: nat, a0: nat, a1: nat): seq<byte>
    requires Usable(G)
  {
    BIT_TAG + (LE(c, 16) + (LE(c, 16) + (LE(Shifted(G, c), 16) + (LE(a0, 16) + LE(a1, 16)))))
  }

  /** The challenge is the first 16 bytes of the digest of the whole transcript, modulo q; and the
      transcript determines the commitment and both announcements. */
  lemma BitChallengeBinds(hash: HashFn, G: Pedersen, c: nat, a0: nat, a1: nat, c': nat, a0': nat, a1': nat)
    requires Usable(G)
    requires c < TWO_TO_128 && a0 < TWO_TO_128 && a1 < TWO_TO_128 && c' < TWO_TO_128 && a0' < TWO_TO_128 && a1' < TWO_TO_128
    ensures BitChallenge(hash, G, c, a0, a1) == FromLE(hash(BitTranscript(G, c, a0, a1))[..16]) % G.q
    ensures BitTranscript(G, c, a0, a1) == BitTranscript(G, c', a0', a1') ==> c == c' && a0 == a0' && a1 == a1'
  {
    var s, t := BitTranscript(G, c, a0, a1), BitTranscript(G, c', a0', a1');
    FlattenFive(c, c, Shifted(G, c), a0, a1);
    RedExact(FromLE(hash(s)[..16]), G.q);
    assert s[4..20] == LE(c, 16) && t[4..20] == LE(c', 16) && s[52..68] == LE(a0, 16) && t[52..68] == LE(a0', 16);
    assert s[68..] == LE(a1, 16) && t[68..] == LE(a1', 16);
    Width16();
    if s == t {
      LEInjective(c, c', 16);
      LEInjective(a0, a0', 16);
      LEInjective(a1, a1', 16);
    }
  }

  lemma FlattenFive(a: nat, b: nat, c: nat, d: nat, e: nat)
    ensures Flatten([a, b, c, d, e]) == LE(a, 16) + (LE(b, 16) + (LE(c, 16) + (LE(d, 16) + LE(e, 16))))
  {
    assert [a, b, c, d, e][1..] == [b, c, d, e] && [b, c, d, e][1..] == [c, d, e] && [c, d, e][1..] == [d, e] && [d, e][1..] == [e];
    assert Flatten([e]) == LE(e, 16) + Flatten([]) == LE(e, 16);
    assert Flatten([d, e]) == LE(d, 16) + Flatten([e]);
    assert Flatten([c, d, e]) == LE(c, 16) + Flatten([d, e]);
    assert Flatten([b, c, d, e]) == LE(b, 16) + Flatten([c, d, e]);
  }

  /** `BitProof::prove`, given its three draws: the real branch is answered, the other simulated. */
  function ProveBit(hash: HashFn, G: Pedersen, c: nat, bit: nat, r: nat, k: nat, share: nat, s: nat): BitProof
    requires Usable(G)
  {
    if bit == 0 then
      var a0 := ExpH(G, k);
      var a1 := Mul(G.p, ExpH(G, s), Inv(G, Pow(G, Shifted(G, c), share)));
      var c0 := SubQ(G, BitChallenge(hash, G, c, a0, a1), share);
      BitProof(a0, a1, c0, share, Response(G, k, c0, r), s)
    else
      var a1 := ExpH(G, k);
      var a0 := Mul(G.p, ExpH(G, s), Inv(G, Pow(G, c, share)));
      var c1 := SubQ(G, BitChallenge(hash, G, c, a0, a1), share);
      BitProof(a0, a1, share, c1, s, Response(G, k, c1, r))
  }

  /** `BitProof::verify`. */
  predicate BitVerifies(hash: HashFn, G: Pedersen, c: nat, proof: BitProof)
    requires Usable(G)
  {
    && ShareSum(G, proof.c0, proof.c1) == BitChallenge(hash, G, c, proof.a0, proof.a1)
    && ExpH(G, proof.s0) == Mul(G.p, proof.a0, Pow(G, c, proof.c0))
    && ExpH(G, proof.s1) == Mul(G.p, proof.a1, Pow(G, Shifted(G, c), proof.c1))
  }

  lemma ShiftedIs(G: Pedersen, cof: nat, x: int, r: int)
    requires Good(G, cof)
    ensures Shifted(G, Elem(G, x, r)) == Elem(G, x - 1, r)
  {
    ElemOfG(G, cof);
    ElemInv(G, cof, 1, 0);
    ElemMul(G, cof, x, r, -1, 0);
  }

  /** Both branches of the OR-proof are accepted. */
  lemma BitComplete(hash: HashFn, G: Pedersen, cof: nat, bit: nat, r: nat, k: nat, share: nat, s: nat)
    requires Good(G, cof) && bit < 2 && share < G.q
    ensures var c := Commit(G, bit, r); BitVerifies(hash, G, c, ProveBit(hash, G, c, bit, r, k, share, s))
  {
    var c := Commit(G, bit, r);
    assert c == Elem(G, bit, r);
    ShiftedIs(G, cof, bit, r);
    var proof := ProveBit(hash, G, c, bit, r, k, share, s);
    var total := BitChallenge(hash, G, c, proof.a0, proof.a1);
    RedBelow(FromLE(hash(BIT_TAG + Flatten([c, c, Shifted(G, c), proof.a0, proof.a1]))[..16]), G.q);
    SharesMeet(G, cof, total, share);
    if bit == 0 {
      SchnorrHolds(G, cof, k, proof.c0, r, c);
      SimulationHolds(G, cof, share, s, -1, r, Shifted(G, c));
    } else {
      SchnorrHolds(G, cof, k, proof.c1, r, Shifted(G, c));
      SimulationHolds(G, cof, share, s, 1, r, c);
    }
  }

  /** Two accepted answers to one commitment of a branch give its witness equation: with different
      challenges they determine the discrete logarithm of y. */
  lemma AnswersExtract(m: nat, lhs: nat, lhs': nat, a: nat, z: nat, z': nat)
    requires m > 1 && lhs == Mul(m, a, z) && lhs' == Mul(m, a, z')
    ensures Mul(m, lhs, z') == Mul(m, lhs', z)
  {
    MulAssoc(m, a, z, z');
    MulComm(m, z, z');
    MulAssoc(m, a, z', z);
  }

  // ---------- range proofs ----------

  datatype RangeProof = RangeProof(bits: nat, commitments: seq<nat>, proofs: seq<BitProof>)

  /** `1u128 << i`; the shift count wraps at 128. */
  function Weight(i: nat): nat { Pow2(i % 128) }

  /** The product of C_i^(2^i). */
  function Recompose(G: Pedersen, cs: seq<nat>): nat
    requires Usable(G)
  {
    if cs == [] then 1 else
      var i := |cs| - 1;
      Mul(G.p, Recompose(G, cs[..i]), Pow(G, cs[i], Red(Weight(i), G.q)))
  }

  ghost predicate RangeVerifies(hash: HashFn, G: Pedersen, c: nat, proof: RangeProof)
    requires Usable(G)
  {
    && |proof.commitments| == proof.bits && |proof.proofs| == proof.bits
    && (forall i :: 0 <= i < proof.bits ==> BitVerifies(hash, G, proof.commitments[i], proof.proofs[i]))
    && Recompose(G, proof.commitments) == c
  }

  /** `RangeProof::verify`. */
  method VerifyRange(hash: HashFn, G: Pedersen, c: nat, proof: RangeProof) returns (ok: bool)
    requires Usable(G)
    ensures ok <==> RangeVerifies(hash, G, c, proof)
  {
    if |proof.commitments| != proof.bits || |proof.proofs| != proof.bits {
      return false;
    }
    for i := 0 to proof.bits
      invariant forall j :: 0 <= j < i ==> BitVerifies(hash, G, proof.commitments[j], proof.proofs[j])
    {
      if !BitVerifies(hash, G, proof.commitments[i], proof.proofs[i]) {
        return false;
      }
    }
    var acc := RecomposeAll(G, proof.commitments);
    ok := acc == c;
  }

  /** The loop that weighs the bit commitments together. */
  method RecomposeAll(G: Pedersen, cs: seq<nat>) returns (acc: nat)
    requires Usable(G)
    ensures acc == Recompose(G, cs)
  {
    acc := 1;
    for i := 0 to |cs|
      invariant acc == Recompose(G, cs[..i])
    {
      assert cs[..i + 1][..i] == cs[..i];
      acc := Mul(G.p, acc, Pow(G, cs[i], Red(Weight(i), G.q)));
    }
    assert cs[..|cs|] == cs;
  }

  /** `(value >> i) & 1`. */
  function BitOf(value: nat, i: nat): (b: nat)
    ensures b < 2
    decreases i
  {
    if i == 0 then value % 2 else BitOf(value / 2, i - 1)
  }

  /** The i low bits of a value. */
  function Low(value: nat, i: nat): nat
    decreases i
  {
    if i == 0 then 0 else value % 2 + 2 * Low(value / 2, i - 1)
  }

  lemma {:induction false} LowNext(value: nat, i: nat)
    ensures Low(value, i + 1) == Low(value, i) + (if BitOf(value, i) == 1 then Pow2(i) else 0)
    decreases i
  {
    if i > 0 {
      LowNext(value / 2, i - 1);
    }
  }

  /** The bits of a value that fits make it up. */
  lemma {:induction false} LowAll(value: nat, bits: nat)
    requires value < Pow2(bits)
    ensures Low(value, bits) == value
    decreases bits
  {
    if bits > 0 {
      LowAll(value / 2, bits - 1);
    }
  }

  /** The blinding after one more bit: `(r + 2^i * ri % q) % q`. */
  function NextBlinding(G: Pedersen, r: nat, i: nat, ri: nat): nat
    requires Usable(G)
  {
    Red(r + Mul(G.q, Red(Weight(i), G.q), ri), G.q)
  }

  lemma NextBlindingExact(G: Pedersen, r: nat, i: nat, ri: nat)
    requires Usable(G)
    ensures Red(NextBlinding(G, r, i, ri), G.q) == Red(r + ri * Red(Weight(i), G.q), G.q)
  {
    var w := Red(Weight(i), G.q);
    MulExact(G.q, w, ri);
    RedExact(w * ri, G.q);
    Commute(w, ri, ri);
    RedAddRight(r, w * ri, G.q);
    RedTwice(r + w * ri, G.q);
  }

  lemma RecomposeRaw(G: Pedersen, cof: nat, cs: seq<nat>, low: nat, r: nat, b: nat, ri: nat, w: nat)
    requires Good(G, cof) && Recompose(G, cs) == Elem(G, low, r) && w == Red(Weight(|cs|), G.q)
    ensures Recompose(G, cs + [Commit(G, b, ri)]) == Elem(G, low + b * w, r + ri * w)
  {
    var i, c := |cs|, Commit(G, b, ri);
    assert (cs + [c])[..i] == cs && (cs + [c])[i] == c == Elem(G, b, ri);
    ElemPow(G, cof, b, ri, w);
    ElemMul(G, cof, low, r, b * w, ri * w);
    assert Recompose(G, cs + [c]) == Mul(G.p, Recompose(G, cs), Pow(G, c, w));
  }

  lemma WeighBit(low: nat, b: nat, weight: nat, q: nat)
    requires q > 0 && b < 2
    ensures Red(low + b * Red(weight, q), q) == Red(low + if b == 1 then weight else 0, q)
  {
    if b == 1 {
      RedAddRight(low, weight, q);
    }
  }

  lemma RecomposeBit(G: Pedersen, cof: nat, cs: seq<nat>, low: nat, r: nat, b: nat, ri: nat) returns (x: int, y: int)
    requires Good(G, cof) && b < 2 && Recompose(G, cs) == Elem(G, low, r)
    ensures Recompose(G, cs + [Commit(G, b, ri)]) == Elem(G, x, y)
    ensures Red(x, G.q) == Red(low + if b == 1 then Weight(|cs|) else 0, G.q)
    ensures Red(y, G.q) == Red(NextBlinding(G, r, |cs|, ri), G.q)
  {
    var w := Red(Weight(|cs|), G.q);
    x, y := low + b * w, r + ri * w;
    RecomposeRaw(G, cof, cs, low, r, b, ri, w);
    NextBlindingExact(G, r, |cs|, ri);
    WeighBit(low, b, Weight(|cs|), G.q);
  }

  /** One more bit commitment adds its weight to both exponents. */
  lemma RecomposeStep(G: Pedersen, cof: nat, cs: seq<nat>, low: nat, r: nat, b: nat, ri: nat)
    requires Good(G, cof) && b < 2 && Recompose(G, cs) == Elem(G, low, r)
    ensures Recompose(G, cs + [Commit(G, b, ri)])
         == Elem(G, low + (if b == 1 then Weight(|cs|) else 0), NextBlinding(G, r, |cs|, ri))
  {
    var x, y := RecomposeBit(G, cof, cs, low, r, b, ri);
    ElemSame(G, x, y, low + (if b == 1 then Weight(|cs|) else 0), NextBlinding(G, r, |cs|, ri));
  }

  lemma BitAdded(G: Pedersen, cof: nat, cs: seq<nat>, value: nat, r: nat, ri: nat)
    requires Good(G, cof) && |cs| < 128 && Recompose(G, cs) == Elem(G, Low(value, |cs|), r)
    ensures Recompose(G, cs + [Commit(G, BitOf(value, |cs|), ri)])
         == Elem(G, Low(value, |cs| + 1), NextBlinding(G, r, |cs|, ri))
  {
    var i, b := |cs|, BitOf(value, |cs|);
    LowNext(value, i);
    SmallWeight(i);
    RecomposeStep(G, cof, cs, Low(value, i), r, b, ri);
  }

  lemma SmallWeight(i: nat)
    requires i < 128
    ensures Weight(i) == Pow2(i)
  {
    assert i % 128 == i;
  }

  datatype Ranged = Ranged(commitment: nat, blinding: nat, proof: RangeProof)

  ghost predicate Fits(value: nat, bits: nat) {
    1 <= bits <= 63 && value < Pow2(bits)
  }

  /** The narrowest and the widest range. */
  lemma RangeWidths(value: u64)
    ensures !Fits(value, 0) && (Fits(value, 1) <==> value < 2) && (Fits(value, 63) <==> value < 0x8000_0000_0000_0000) && !Fits(value, 64)
  {
    assert Pow2(0) == 1 && Pow2(1) == 2;
    assert Pow2(16) == 0x1_0000 by { assert Pow2(8) == 256; }
    assert Pow2(32) == 0x1_0000_0000 by { assert Pow2(24) == 0x100_0000; }
    assert Pow2(48) == 0x1_0000_0000_0000 by { assert Pow2(40) == 0x100_0000_0000; }
    assert Pow2(63) == 0x8000_0000_0000_0000 by { assert Pow2(56) == 0x100_0000_0000_0000; }
  }

  ghost predicate Opens(hash: HashFn, G: Pedersen, value: nat, bits: nat, t: Ranged)
    requires Usable(G)
  {
    && Fits(value, bits) && t.proof.bits == bits && t.commitment == Commit(G, value, t.blinding)
    && RangeVerifies(hash, G, t.commitment, t.proof)
  }

  /** One round of the loop below: four draws, one commitment, one proof. */
  method ProveNextBit(hash: HashFn, rng: Drng, G: Pedersen, bit: nat, i: nat, seed: seq<byte>, ghost cof: nat)
    returns (c: nat, ri: nat, proof: BitProof)
    requires Good(G, cof) && bit < 2
    ensures c == Commit(G, bit, ri) && BitVerifies(hash, G, c, proof) && ri == Draw(rng, seed, 4 * i, G.q)
  {
    ri := Draw(rng, seed, 4 * i, G.q);
    c := Commit(G, bit, ri);
    var k := Draw(rng, seed, 4 * i + 1, G.q);
    var share := Draw(rng, seed, 4 * i + 2, G.q);
    var s := Draw(rng, seed, 4 * i + 3, G.q);
    ShareBelow(rng, seed, 4 * i + 2, G.q);
    BitComplete(hash, G, cof, bit, ri, k, share, s);
    proof := ProveBit(hash, G, c, bit, ri, k, share, s);
  }

  /** The blinding of a whole amount: the draws for its bits, weighted. */
  function Blinding(rng: Drng, G: Pedersen, seed: seq<byte>, bits: nat): nat
    requires Usable(G)
  {
    if bits == 0 then 0 else NextBlinding(G, Blinding(rng, G, seed, bits - 1), bits - 1, Draw(rng, seed, 4 * (bits - 1), G.q))
  }

  /** `RangeProof::prove`: succeeds exactly on amounts that fit, with a proof that is accepted. */
  method ProveRange(hash: HashFn, rng: Drng, G: Pedersen, value: u64, bits: nat, seed: seq<byte>, ghost cof: nat)
    returns (r: Option<Ranged>)
    requires Good(G, cof)
    ensures r.Some? <==> Fits(value, bits)
    ensures r.Some? ==> Opens(hash, G, value, bits, r.value) && r.value.blinding == Blinding(rng, G, seed, bits)
  {
    if bits == 0 || bits > 63 || value >= Pow2(bits) {
      return None;
    }
    var commitments, proofs: seq<BitProof>, total: nat := [], [], 0;
    ElemOfOne(G, cof);
    for i := 0 to bits
      invariant |commitments| == i && |proofs| == i
      invariant forall j :: 0 <= j < i ==> BitVerifies(hash, G, commitments[j], proofs[j])
      invariant Recompose(G, commitments) == Elem(G, Low(value, i), total) && total == Blinding(rng, G, seed, i)
    {
      var bit := BitOf(value, i);
      var c, ri, proof := ProveNextBit(hash, rng, G, bit, i, seed, cof);
      BitAdded(G, cof, commitments, value, total, ri);
      total := NextBlinding(G, total, i, ri);
      proofs := proofs + [proof];
      commitments := commitments + [c];
    }
    LowAll(value, bits);
    r := Some(Ranged(Commit(G, value, total), total, RangeProof(bits, commitments, proofs)));
  }

  lemma ShareBelow(rng: Drng, seed: seq<byte>, n: nat, q: nat)
    requires q > 0
    ensures Draw(rng, seed, n, q) < q
  {
    RedBelow(0x1_0000_0000_0000_0000 * rng(seed, 2 * n + 1) as int + rng(seed, 2 * n), q);
  }

  // ---------- the balance proof ----------

  datatype BalanceProof = BalanceProof(a: nat, s: nat)

  function ProveBalance(hash: HashFn, rng: Drng, G: Pedersen, residual: nat, delta: nat, seed: seq<byte>): BalanceProof
    requires Usable(G)
  {
    var k := Draw(rng, seed, 0, G.q);
    var a := ExpH(G, k);
    BalanceProof(a, Response(G, k, Challenge(hash, G, BALANCE_TAG, [residual, a]), delta))
  }

  predicate BalanceVerifies(hash: HashFn, G: Pedersen, residual: nat, proof: BalanceProof)
    requires Usable(G)
  {
    var c := Challenge(hash, G, BALANCE_TAG, [residual, proof.a]);
    ExpH(G, proof.s) == Mul(G.p, proof.a, Pow(G, residual, c))
  }

  /** The challenge of a balance proof is the digest of the residual and the announcement. */
  lemma BalanceChallengeBinds(hash: HashFn, G: Pedersen, d: nat, a: nat)
    requires Usable(G)
    ensures Challenge(hash, G, BALANCE_TAG, [d, a]) == FromLE(hash(BALANCE_TAG + (LE(d, 16) + LE(a, 16)))[..16]) % G.q
  {
    assert [d, a][1..] == [a] && Flatten([a]) == LE(a, 16) + Flatten([]) == LE(a, 16);
    assert Flatten([d, a]) == LE(d, 16) + Flatten([a]);
    RedExact(FromLE(hash(BALANCE_TAG + Flatten([d, a]))[..16]), G.q);
  }

  lemma BalanceComplete(hash: HashFn, rng: Drng, G: Pedersen, cof: nat, residual: nat, delta: nat, seed: seq<byte>)
    requires Good(G, cof) && residual == Elem(G, 0, delta)
    ensures BalanceVerifies(hash, G, residual, ProveBalance(hash, rng, G, residual, delta, seed))
  {
    var k := Draw(rng, seed, 0, G.q);
    SchnorrHolds(G, cof, k, Challenge(hash, G, BALANCE_TAG, [residual, ExpH(G, k)]), delta, residual);
  }

  /** An honest answer to a residual that is not a pure power of h is accepted exactly when the
      challenge annihilates the net amount. */
  lemma BalanceExactly(hash: HashFn, rng: Drng, G: Pedersen, cof: nat, net: int, delta: nat, seed: seq<byte>)
    requires Good(G, cof)
    ensures var residual := Elem(G, net, delta);
            var proof := ProveBalance(hash, rng, G, residual, delta, seed);
            var c := Challenge(hash, G, BALANCE_TAG, [residual, proof.a]);
            BalanceVerifies(hash, G, residual, proof) <==> Elem(G, net * c, 0) == 1
  {
    var residual := Elem(G, net, delta);
    var k := Draw(rng, seed, 0, G.q);
    var c := Challenge(hash, G, BALANCE_TAG, [residual, ExpH(G, k)]);
    var y := k + delta * c;
    ElemOfH(G, cof, Response(G, k, c, delta));
    ResponseExact(G, k, c, delta);
    ElemSame(G, 0, Response(G, k, c, delta), 0, y);
    ElemOfH(G, cof, k);
    ElemPow(G, cof, net, delta, c);
    ElemMul(G, cof, 0, k, net * c, delta * c);
    SameHeight(G, cof, net * c, y);
  }

  /** Elements with equal h-exponents are equal exactly when their g-parts are. */
  lemma SameHeight(G: Pedersen, cof: nat, x: int, y: int)
    requires Good(G, cof)
    ensures Elem(G, x, y) == Elem(G, 0, y) <==> Elem(G, x, 0) == 1
  {
    ElemOfOne(G, cof);
    ElemMul(G, cof, x, 0, 0, y);
    ElemMul(G, cof, x, y, 0, -y);
    ElemMul(G, cof, 0, y, 0, -y);
    MulLess(G.p, Exp(G.p, G.g, Red(0, G.q)), Exp(G.p, G.h, Red(y, G.q)));
    MulOne(G.p, Elem(G, 0, y));
  }

  function Product(G: Pedersen, cs: seq<nat>): nat
    requires Usable(G)
  {
    if cs == [] then 1 else Mul(G.p, Product(G, cs[..|cs| - 1]), cs[|cs| - 1])
  }

  /** D = (product of inputs) / (product of outputs * g^fee). */
  function Residual(G: Pedersen, ins: seq<nat>, outs: seq<nat>, fee: nat): nat
    requires Usable(G)
  {
    Mul(G.p, Product(G, ins), Inv(G, Mul(G.p, Product(G, outs), ExpG(G, fee))))
  }

  method MultiplyAll(G: Pedersen, cs: seq<nat>) returns (acc: nat)
    requires Usable(G)
    ensures acc == Product(G, cs)
  {
    acc := 1;
    for i := 0 to |cs|
      invariant acc == Product(G, cs[..i])
    {
      assert cs[..i + 1][..i] == cs[..i];
      acc := Mul(G.p, acc, cs[i]);
    }
    assert cs[..|cs|] == cs;
  }

  /** `compute_residual`. */
  method ComputeResidual(G: Pedersen, ins: seq<nat>, outs: seq<nat>, fee: nat) returns (d: nat)
    requires Usable(G)
    ensures d == Residual(G, ins, outs, fee)
  {
    var num := MultiplyAll(G, ins);
    var den := MultiplyAll(G, outs);
    d := Mul(G.p, num, Inv(G, Mul(G.p, den, ExpG(G, fee))));
  }

  /** The residual of openings. */
  lemma ResidualIs(G: Pedersen, cof: nat, ins: seq<nat>, outs: seq<nat>, fee: nat, vin: nat, vout: nat, rin: nat, rout: nat)
    requires Good(G, cof) && Product(G, ins) == Elem(G, vin, rin) && Product(G, outs) == Elem(G, vout, rout)
    ensures Residual(G, ins, outs, fee) == Elem(G, vin - vout - fee, rin - rout)
  {
    ElemOfGPower(G, cof, fee);
    ElemMul(G, cof, vout, rout, fee, 0);
    ElemInv(G, cof, vout + fee, rout);
    ElemMul(G, cof, vin, rin, 0 - vout - fee, 0 - rout);
  }

  /** When the amounts balance, the residual is a pure power of h. */
  lemma ResidualBalances(G: Pedersen, cof: nat, ins: seq<nat>, outs: seq<nat>, fee: nat, vin: nat, vout: nat, rin: nat, rout: nat)
    requires Good(G, cof) && Product(G, ins) == Elem(G, vin, rin) && Product(G, outs) == Elem(G, vout, rout)
    requires vin == vout + fee
    ensures Residual(G, ins, outs, fee) == Elem(G, 0, SubQ(G, rin, rout))
  {
    ResidualIs(G, cof, ins, outs, fee, vin, vout, rin, rout);
    SubQExact(G, rin, rout);
    ElemSame(G, 0, rin - rout, 0, SubQ(G, rin, rout));
  }

  lemma SubQExact(G: Pedersen, a: nat, b: nat)
    requires Usable(G)
    ensures Red(SubQ(G, a, b), G.q) == Red(a - b, G.q)
  {
    var q := G.q;
    var k := RedQuotient(a, q);
    var l := RedQuotient(b, q);
    var d := Red(a, q) + (q - Red(b, q));
    RedTwice(d, q);
    assert q * (k - l - 1) == q * k - q * l - q;
    RedCongruent(a - b, d, q, k - l - 1);
  }

  // ---------- transactions ----------

  datatype Tx = Tx(inputs: seq<nat>, outputs: seq<nat>, fee: u64, ranges: seq<RangeProof>, balance: BalanceProof)

  ghost predicate TxVerifies(hash: HashFn, G: Pedersen, tx: Tx, bits: nat)
    requires Usable(G)
  {
    && |tx.ranges| == |tx.outputs|
    && (forall i :: 0 <= i < |tx.outputs| ==> tx.ranges[i].bits == bits && RangeVerifies(hash, G, tx.outputs[i], tx.ranges[i]))
    && BalanceVerifies(hash, G, Residual(G, tx.inputs, tx.outputs, tx.fee), tx.balance)
  }

  /** `ConfidentialTx::verify`. */
  method VerifyTx(hash: HashFn, G: Pedersen, tx: Tx, bits: nat) returns (ok: bool)
    requires Usable(G)
    ensures ok <==> TxVerifies(hash, G, tx, bits)
  {
    if |tx.ranges| != |tx.outputs| {
      return false;
    }
    for i := 0 to |tx.outputs|
      invariant forall j :: 0 <= j < i ==> tx.ranges[j].bits == bits && RangeVerifies(hash, G, tx.outputs[j], tx.ranges[j])
    {
      var good := VerifyRange(hash, G, tx.outputs[i], tx.ranges[i]);
      if tx.ranges[i].bits != bits || !good {
        return false;
      }
    }
    var d := ComputeResidual(G, tx.inputs, tx.outputs, tx.fee);
    ok := BalanceVerifies(hash, G, d, tx.balance);
  }

  function Total(amounts: seq<u64>): nat {
    if amounts == [] then 0 else Total(amounts[..|amounts| - 1]) + amounts[|amounts| - 1]
  }

  lemma OneMoreCommitment(G: Pedersen, cof: nat, cs: seq<nat>, v: nat, r: nat, value: nat, ri: nat)
    requires Good(G, cof) && Product(G, cs) == Elem(G, v, r)
    ensures Product(G, cs + [Commit(G, value, ri)]) == Elem(G, v + value, Red(r + ri, G.q))
  {
    var c := Commit(G, value, ri);
    assert (cs + [c])[..|cs|] == cs && c == Elem(G, value, ri);
    ElemMul(G, cof, v, r, value, ri);
    RedTwice(r + ri, G.q);
    ElemSame(G, v + value, r + ri, v + value, Red(r + ri, G.q));
  }

  function Commitments(made: seq<Ranged>): (cs: seq<nat>)
    ensures |cs| == |made| && forall i :: 0 <= i < |made| ==> cs[i] == made[i].commitment
  {
    seq(|made|, i requires 0 <= i < |made| => made[i].commitment)
  }

  function Proofs(made: seq<Ranged>): (ps: seq<RangeProof>)
    ensures |ps| == |made| && forall i :: 0 <= i < |made| ==> ps[i] == made[i].proof
  {
    seq(|made|, i requires 0 <= i < |made| => made[i].proof)
  }

  /** The commitments made so far multiply to one to the sum of their amounts. */
  ghost predicate Summed(G: Pedersen, amounts: seq<u64>, made: seq<Ranged>, r: nat)
    requires Usable(G) && |made| <= |amounts|
  {
    Product(G, Commitments(made)) == Elem(G, Total(amounts[..|made|]), r)
  }

  lemma OneMoreAmount(G: Pedersen, cof: nat, amounts: seq<u64>, made: seq<Ranged>, r: nat, t: Ranged)
    requires Good(G, cof) && |made| < |amounts| && t.commitment == Commit(G, amounts[|made|], t.blinding)
    requires Summed(G, amounts, made, r)
    ensures Summed(G, amounts, made + [t], Red(r + t.blinding, G.q))
  {
    var i := |made|;
    assert amounts[..i + 1][..i] == amounts[..i];
    OneMoreCommitment(G, cof, Commitments(made), Total(amounts[..i]), r, amounts[i], t.blinding);
    assert Commitments(made + [t]) == Commitments(made) + [t.commitment];
  }

  /** Every commitment is to its amount and comes with an accepted proof. */
  ghost predicate Committed(hash: HashFn, G: Pedersen, amounts: seq<u64>, bits: nat, made: seq<Ranged>)
    requires Usable(G)
  {
    |made| == |amounts| && forall i :: 0 <= i < |made| ==> Opens(hash, G, amounts[i], bits, made[i])
  }

  /** Every blinding is the one drawn from its own seed. */
  ghost predicate Blinded(rng: Drng, G: Pedersen, bits: nat, seed: seq<byte>, made: seq<Ranged>)
    requires Usable(G)
  {
    forall i :: 0 <= i < |made| ==> made[i].blinding == Blinding(rng, G, seed + LE(i, 8), bits)
  }

  ghost predicate AllFit(amounts: seq<u64>, bits: nat) {
    forall i :: 0 <= i < |amounts| ==> Fits(amounts[i], bits)
  }

  /** The first amounts are committed to, each under the blinding of its own seed. */
  ghost predicate SoFar(hash: HashFn, rng: Drng, G: Pedersen, amounts: seq<u64>, bits: nat, seed: seq<byte>, made: seq<Ranged>)
    requires Usable(G) && |made| <= |amounts|
  {
    Committed(hash, G, amounts[..|made|], bits, made) && Blinded(rng, G, bits, seed, made)
  }

  lemma NothingMade(hash: HashFn, rng: Drng, G: Pedersen, cof: nat, amounts: seq<u64>, bits: nat, seed: seq<byte>)
    requires Good(G, cof)
    ensures SoFar(hash, rng, G, amounts, bits, seed, []) && Summed(G, amounts, [], 0)
  {
    ElemOfOne(G, cof);
  }

  lemma OneMoreMade(hash: HashFn, rng: Drng, G: Pedersen, amounts: seq<u64>, bits: nat, seed: seq<byte>, made: seq<Ranged>, t: Ranged)
    requires Usable(G) && |made| < |amounts| && SoFar(hash, rng, G, amounts, bits, seed, made)
    requires Opens(hash, G, amounts[|made|], bits, t) && t.blinding == Blinding(rng, G, seed + LE(|made|, 8), bits)
    ensures SoFar(hash, rng, G, amounts, bits, seed, made + [t])
  {
    var more := made + [t];
    forall i | 0 <= i < |more|
      ensures Opens(hash, G, amounts[..|more|][i], bits, more[i])
    {
      if i < |made| {
        assert Opens(hash, G, amounts[..|made|][i], bits, made[i]);
      }
    }
  }

  lemma AllMade(hash: HashFn, rng: Drng, G: Pedersen, amounts: seq<u64>, bits: nat, seed: seq<byte>, made: seq<Ranged>)
    requires Usable(G) && |made| == |amounts| && SoFar(hash, rng, G, amounts, bits, seed, made)
    ensures Committed(hash, G, amounts, bits, made) && AllFit(amounts, bits) && amounts[..|made|] == amounts
  {
    assert amounts[..|made|] == amounts;
    forall i | 0 <= i < |amounts|
      ensures Fits(amounts[i], bits)
    {
      assert Opens(hash, G, amounts[i], bits, made[i]);
    }
  }

  /** One round of the loop below. */
  method CommitNext(hash: HashFn, rng: Drng, G: Pedersen, amounts: seq<u64>, bits: nat, seed: seq<byte>, ghost cof: nat,
                    made: seq<Ranged>, blinding: nat)
    returns (ok: bool, made': seq<Ranged>, blinding': nat)
    requires Good(G, cof) && |made| < |amounts|
    requires SoFar(hash, rng, G, amounts, bits, seed, made) && Summed(G, amounts, made, blinding)
    ensures !ok ==> !Fits(amounts[|made|], bits)
    ensures ok ==> |made'| == |made| + 1
    ensures ok ==> SoFar(hash, rng, G, amounts, bits, seed, made') && Summed(G, amounts, made', blinding')
  {
    var one := ProveRange(hash, rng, G, amounts[|made|], bits, seed + LE(|made|, 8), cof);
    if one.None? {
      return false, made, blinding;
    }
    OneMoreAmount(G, cof, amounts, made, blinding, one.value);
    OneMoreMade(hash, rng, G, amounts, bits, seed, made, one.value);
    return true, made + [one.value], Red(blinding + one.value.blinding, G.q);
  }

  /** The loop over inputs, or over outputs: commit to each amount, add up the blindings. */
  method CommitAll(hash: HashFn, rng: Drng, G: Pedersen, amounts: seq<u64>, bits: nat, seed: seq<byte>, ghost cof: nat)
    returns (r: Option<seq<Ranged>>, blinding: nat)
    requires Good(G, cof)
    ensures r.Some? <==> AllFit(amounts, bits)
    ensures r.Some? ==> Committed(hash, G, amounts, bits, r.value) && Blinded(rng, G, bits, seed, r.value)
    ensures r.Some? ==> Product(G, Commitments(r.value)) == Elem(G, Total(amounts), blinding)
  {
    var made: seq<Ranged> := [];
    blinding := 0;
    NothingMade(hash, rng, G, cof, amounts, bits, seed);
    for i := 0 to |amounts|
      invariant |made| == i && SoFar(hash, rng, G, amounts, bits, seed, made)
      invariant Summed(G, amounts, made, blinding)
    {
      var ok;
      ok, made, blinding := CommitNext(hash, rng, G, amounts, bits, seed, cof, made, blinding);
      if !ok {
        return None, 0;
      }
    }
    AllMade(hash, rng, G, amounts, bits, seed, made);
    r := Some(made);
  }

  const IN_LABEL: seq<byte> := [124, 105, 110, 124]
  const OUT_LABEL: seq<byte> := [124, 111, 117, 116, 124]
  const BALANCE_LABEL: seq<byte> := [124, 98, 97, 108, 97, 110, 99, 101]

  ghost predicate Buildable(inputs: seq<u64>, outputs: seq<u64>, fee: u64, bits: nat) {
    Total(inputs) == Total(outputs) + fee && AllFit(inputs, bits) && AllFit(outputs, bits)
  }

  /** Each commitment is to its amount, under the blinding drawn from its own seed. */
  ghost predicate CommitsTo(rng: Drng, G: Pedersen, cs: seq<nat>, amounts: seq<u64>, bits: nat, seed: seq<byte>)
    requires Usable(G)
  {
    |cs| == |amounts| && forall i :: 0 <= i < |cs| ==> cs[i] == Commit(G, amounts[i], Blinding(rng, G, seed + LE(i, 8), bits))
  }

  lemma Commits(hash: HashFn, rng: Drng, G: Pedersen, amounts: seq<u64>, bits: nat, seed: seq<byte>, made: seq<Ranged>)
    requires Usable(G) && Committed(hash, G, amounts, bits, made) && Blinded(rng, G, bits, seed, made)
    ensures CommitsTo(rng, G, Commitments(made), amounts, bits, seed)
  {
    forall i | 0 <= i < |made|
      ensures made[i].commitment == Commit(G, amounts[i], Blinding(rng, G, seed + LE(i, 8), bits))
    {
      assert Opens(hash, G, amounts[i], bits, made[i]);
    }
  }

  /** `ConfidentialTx::build`: succeeds exactly when the amounts balance and fit, and whatever it
      emits is accepted by `verify`, commits to the given amounts under the blindings drawn from the
      seed, and carries the given fee. */
  method Build(hash: HashFn, rng: Drng, G: Pedersen, inputs: seq<u64>, outputs: seq<u64>, fee: u64, bits: nat,
               seed: seq<byte>, ghost cof: nat)
    returns (r: Option<Tx>)
    requires Good(G, cof)
    ensures r.Some? <==> Buildable(inputs, outputs, fee, bits)
    ensures r.Some? ==> TxVerifies(hash, G, r.value, bits)
    ensures r.Some? ==> CommitsTo(rng, G, r.value.inputs, inputs, bits, seed + IN_LABEL)
    ensures r.Some? ==> CommitsTo(rng, G, r.value.outputs, outputs, bits, seed + OUT_LABEL) && r.value.fee == fee
  {
    var sumIn := Sum(inputs);
    var sumOut := Sum(outputs);
    if sumIn != sumOut + fee {
      return None;
    }
    var ins, rin := CommitAll(hash, rng, G, inputs, bits, seed + IN_LABEL, cof);
    if ins.None? {
      return None;
    }
    var outs, rout := CommitAll(hash, rng, G, outputs, bits, seed + OUT_LABEL, cof);
    if outs.None? {
      return None;
    }
    var ics, ocs := Commitments(ins.value), Commitments(outs.value);
    var d := ComputeResidual(G, ics, ocs, fee);
    var delta := SubQ(G, rin, rout);
    ResidualBalances(G, cof, ics, ocs, fee, sumIn, sumOut, rin, rout);
    BalanceComplete(hash, rng, G, cof, d, delta, seed + BALANCE_LABEL);
    Commits(hash, rng, G, inputs, bits, seed + IN_LABEL, ins.value);
    Commits(hash, rng, G, outputs, bits, seed + OUT_LABEL, outs.value);
    r := Some(Tx(ics, ocs, fee, Proofs(outs.value), ProveBalance(hash, rng, G, d, delta, seed + BALANCE_LABEL)));
  }

  method Sum(amounts: seq<u64>) returns (total: nat)
    ensures total == Total(amounts)
  {
    total := 0;
    for i := 0 to |amounts|
      invariant total == Total(amounts[..i])
    {
      assert amounts[..i + 1][..i] == amounts[..i];
      total := total + amounts[i];
    }
    assert amounts[..|amounts|] == amounts;
  }
}
