/** What accepted proofs prove (`ctx.rs`). A proof by itself is about no secret: in a cyclic group
    every element opens to every amount under some blinding. What is proved is extraction: the
    answers to two different challenges determine, by explicit equations, the opening whoever
    answered must know. */
module CtxSound {
  import opened Bits
  import opened Bytes
  import opened ModGroup
  import opened Ctx

  /** An element of the subgroup of order q. */
  ghost predicate Member(G: Pedersen, y: nat)
    requires Usable(G)
  {
    y < G.p && Exp(G.p, y, G.q) == 1
  }

  /** Every nonzero residue has an inverse, as it does when q is prime. */
  ghost predicate Field(q: nat)
    requires q > 0
  {
    forall d: nat :: 0 < d < q ==> Invertible(q, d)
  }

  ghost predicate Invertible(q: nat, d: nat)
    requires q > 0
  {
    exists k: nat :: Mul(q, d, k) == 1
  }

  /** y to any integer power. */
  ghost function Power(G: Pedersen, y: nat, x: int): nat
    requires Usable(G)
  {
    Exp(G.p, y, Red(x, G.q))
  }

  lemma PowerZero(G: Pedersen, y: nat)
    requires Usable(G)
    ensures Power(G, y, 0) == 1
  {
    RedSmall(0, G.q);
    ExpZero(G.p, y);
  }

  /** A factor moved from one side to the other. */
  lemma Cancel(G: Pedersen, y: nat, z: nat, s: int, t: int, e: int, f: int)
    requires Usable(G) && Member(G, y) && Member(G, z)
    requires Mul(G.p, Power(G, z, s), Power(G, y, f)) == Mul(G.p, Power(G, z, t), Power(G, y, e))
    ensures Power(G, z, s - t) == Power(G, y, e - f)
  {
    var m, a, b := G.p, Power(G, z, -t), Power(G, y, -f);
    MulSwap(m, Power(G, z, s), Power(G, y, f), a, b);
    MulSwap(m, Power(G, z, t), Power(G, y, e), a, b);
    PowerSum(m, z, G.q, s, -t);
    PowerSum(m, z, G.q, t, -t);
    PowerSum(m, y, G.q, f, -f);
    PowerSum(m, y, G.q, e, -f);
    PowerZero(G, y);
    PowerZero(G, z);
    ExpLess(m, z, Red(s - t, G.q));
    ExpLess(m, y, Red(e - f, G.q));
    MulOne(m, Power(G, z, s - t));
    MulOne(m, Power(G, y, e - f));
  }

  lemma InverseOf(q: nat, d: int, k: nat)
    requires q > 1 && Mul(q, Red(d, q), k) == 1
    ensures Red(d * k, q) == 1
  {
    MulExact(q, Red(d, q), k);
    RedExact(Red(d, q) * k, q);
    RedTimes(d, k, q);
  }

  /** A power of y that is a power of z, with an invertible exponent, makes y a power of z. */
  lemma Root(G: Pedersen, y: nat, z: nat, u: int, d: int, k: nat)
    requires Usable(G) && G.q > 1 && Member(G, y) && Member(G, z)
    requires Power(G, z, u) == Power(G, y, d) && Mul(G.q, Red(d, G.q), k) == 1
    ensures y == Power(G, z, u * k)
  {
    PowerTimes(G.p, z, G.q, u, k);
    PowerTimes(G.p, y, G.q, d, k);
    InverseOf(G.q, d, k);
    ExpStep(G.p, y, 1);
    ExpZero(G.p, y);
    MulOne(G.p, y);
  }

  lemma DifferentResidues(e: int, f: int, q: nat)
    requires q > 0 && Red(e, q) != Red(f, q)
    ensures 0 < Red(e - f, q) < q
  {
    var k := RedQuotient(e - f, q);
    if Red(e - f, q) == 0 {
      RedCongruent(e, f, q, k);
    }
  }

  /** The exponent two answers s and t to the challenges e and f determine: r (e - f) = s - t. */
  ghost predicate Solves(q: nat, r: int, e: int, f: int, s: int, t: int)
    requires q > 0
  {
    Red(r * (e - f), q) == Red(s - t, q)
  }

  lemma SolveExact(q: nat, u: int, d: int, k: nat)
    requires q > 1 && Mul(q, Red(d, q), k) == 1
    ensures Red(Red(u * k, q) * d, q) == Red(u, q)
  {
    InverseOf(q, d, k);
    Rearrange(u, k, d);
    SolveReduced(q, u, d, u * k, d * k);
  }

  lemma Rearrange(u: int, k: int, d: int)
    ensures u * k * d == d * k * u
  {
  }

  lemma SolveReduced(q: nat, u: int, d: int, a: int, b: int)
    requires q > 1 && Red(b, q) == 1 && a * d == b * u
    ensures Red(Red(a, q) * d, q) == Red(u, q)
  {
    RedTimes(a, d, q);
    RedTimes(b, u, q);
  }

  /** Two answers to different challenges on one branch determine its exponent of h. */
  lemma BranchSound(G: Pedersen, cof: nat, y: nat, s: nat, t: nat, e: nat, f: nat) returns (r: nat)
    requires Good(G, cof) && Field(G.q) && Member(G, y) && Red(e, G.q) != Red(f, G.q)
    requires Mul(G.p, ExpH(G, s), Pow(G, y, f)) == Mul(G.p, ExpH(G, t), Pow(G, y, e))
    ensures y == Elem(G, 0, r) && Solves(G.q, r, e, f, s, t)
  {
    Cancel(G, y, G.h, s, t, e, f);
    DifferentResidues(e, f, G.q);
    assert Invertible(G.q, Red(e - f, G.q));
    var k: nat :| Mul(G.q, Red(e - f, G.q), k) == 1;
    Root(G, y, G.h, s - t, e - f, k);
    SolveExact(G.q, s - t, e - f, k);
    r := Red((s - t) * k, G.q);
    RedTwice((s - t) * k, G.q);
    ElemOfH(G, cof, r);
  }

  lemma ShiftedMember(G: Pedersen, cof: nat, c: nat)
    requires Good(G, cof) && Member(G, c)
    ensures Member(G, Shifted(G, c)) && Mul(G.p, Shifted(G, c), G.g) == c
  {
    var i := Inv(G, G.g);
    ElemOfG(G, cof);
    ElemInv(G, cof, 1, 0);
    assert i == Elem(G, -1, 0);
    ElemExp(G, cof, -1, 0, G.q);
    RedCongruent(-1 * G.q, 0, G.q, -1);
    ElemSame(G, -1 * G.q, 0 * G.q, 0, 0);
    ElemOfOne(G, cof);
    ExpOfProduct(G.p, c, i, G.q);
    MulOne(G.p, 1);
    MulLess(G.p, c, i);
    MulAssoc(G.p, c, i, G.g);
    ElemMul(G, cof, -1, 0, 1, 0);
    MulOne(G.p, c);
  }

  /** The challenge shares add up within 128 bits, as those of `prove` do. */
  predicate SharesFit(p: BitProof) { p.c0 + p.c1 < TWO_TO_128 }

  lemma SharesAgree(G: Pedersen, p: BitProof, p': BitProof)
    requires Usable(G) && SharesFit(p) && SharesFit(p')
    requires Red(p.c0, G.q) == Red(p'.c0, G.q) && Red(p.c1, G.q) == Red(p'.c1, G.q)
    ensures ShareSum(G, p.c0, p.c1) == ShareSum(G, p'.c0, p'.c1)
  {
    RedSmall(p.c0 + p.c1, TWO_TO_128);
    RedSmall(p'.c0 + p'.c1, TWO_TO_128);
    RedAdd(p.c0, p.c1, G.q);
    RedAdd(p'.c0, p'.c1, G.q);
  }

  /** Two proofs for c with the same announcements, under different challenges. */
  ghost predicate Rechallenged(hash: HashFn, hash': HashFn, G: Pedersen, c: nat, p: BitProof, p': BitProof)
    requires Usable(G)
  {
    && p.a0 == p'.a0 && p.a1 == p'.a1 && SharesFit(p) && SharesFit(p')
    && BitChallenge(hash, G, c, p.a0, p.a1) != BitChallenge(hash', G, c, p.a0, p.a1)
  }

  /** The bit is the branch whose challenge share differs, and the blinding is the one its answers
      determine. */
  ghost predicate Extracted(G: Pedersen, p: BitProof, p': BitProof, b: nat, r: nat)
    requires Usable(G)
  {
    if Red(p.c0, G.q) != Red(p'.c0, G.q) then b == 0 && Solves(G.q, r, p.c0, p'.c0, p.s0, p'.s0)
    else b == 1 && Red(p.c1, G.q) != Red(p'.c1, G.q) && Solves(G.q, r, p.c1, p'.c1, p.s1, p'.s1)
  }

  /** The one-of-two proof is sound: what two accepted answers determine opens c. */
  lemma BitSound(hash: HashFn, hash': HashFn, G: Pedersen, cof: nat, c: nat, p: BitProof, p': BitProof)
    returns (b: nat, r: nat)
    requires Good(G, cof) && Field(G.q) && Member(G, c) && Rechallenged(hash, hash', G, c, p, p')
    requires BitVerifies(hash, G, c, p) && BitVerifies(hash', G, c, p')
    ensures Extracted(G, p, p', b, r) && c == Commit(G, b, r)
  {
    if Red(p.c0, G.q) != Red(p'.c0, G.q) {
      b := 0;
      AnswersExtract(G.p, ExpH(G, p.s0), ExpH(G, p'.s0), p.a0, Pow(G, c, p.c0), Pow(G, c, p'.c0));
      r := BranchSound(G, cof, c, p.s0, p'.s0, p.c0, p'.c0);
    } else {
      b := 1;
      var y := Shifted(G, c);
      if Red(p.c1, G.q) == Red(p'.c1, G.q) {
        SharesAgree(G, p, p');
      }
      ShiftedMember(G, cof, c);
      AnswersExtract(G.p, ExpH(G, p.s1), ExpH(G, p'.s1), p.a1, Pow(G, y, p.c1), Pow(G, y, p'.c1));
      r := BranchSound(G, cof, y, p.s1, p'.s1, p.c1, p'.c1);
      ElemOfG(G, cof);
      ElemMul(G, cof, 0, r, 1, 0);
    }
  }

  // ---------- range proofs ----------

  /** The sum of s[i] 2^i. */
  function Weigh(s: seq<nat>): nat {
    if s == [] then 0 else Weigh(s[..|s| - 1]) + s[|s| - 1] * Pow2(|s| - 1)
  }

  lemma WeighNext(s: seq<nat>, x: nat)
    ensures Weigh(s + [x]) == Weigh(s) + x * Pow2(|s|)
  {
    assert (s + [x])[..|s|] == s;
  }

  lemma {:induction false} BitsFit(bs: seq<nat>)
    requires forall i :: 0 <= i < |bs| ==> bs[i] < 2
    ensures Weigh(bs) < Pow2(|bs|)
    decreases |bs|
  {
    if bs != [] {
      BitsFit(bs[..|bs| - 1]);
    }
  }

  lemma WeightReduced(x: int, n: int, w: int, q: nat)
    requires q > 0
    ensures Red(x + n * Red(w, q), q) == Red(x + n * w, q)
  {
    var k := RedQuotient(w, q);
    assert n * w == n * Red(w, q) + q * (n * k);
    RedCongruent(x + n * w, x + n * Red(w, q), q, n * k);
  }

  ghost predicate AllVerify(hash: HashFn, G: Pedersen, cs: seq<nat>, ps: seq<BitProof>)
    requires Usable(G) && |ps| == |cs|
  {
    forall i :: 0 <= i < |cs| ==> BitVerifies(hash, G, cs[i], ps[i])
  }

  /** Every bit commitment is of the subgroup and challenged twice. */
  ghost predicate AllRechallenged(hash: HashFn, hash': HashFn, G: Pedersen, cs: seq<nat>, ps: seq<BitProof>, ps': seq<BitProof>)
    requires Usable(G) && |ps| == |ps'| == |cs|
  {
    forall i :: 0 <= i < |cs| ==> Member(G, cs[i]) && Rechallenged(hash, hash', G, cs[i], ps[i], ps'[i])
  }

  /** Bits and blindings determined by the answers, opening each bit commitment. */
  ghost predicate AllExtracted(G: Pedersen, cs: seq<nat>, ps: seq<BitProof>, ps': seq<BitProof>, bs: seq<nat>, rs: seq<nat>)
    requires Usable(G) && |ps| == |ps'| == |cs|
  {
    && |bs| == |rs| == |cs|
    && forall i :: 0 <= i < |cs| ==> Extracted(G, ps[i], ps'[i], bs[i], rs[i]) && cs[i] == Commit(G, bs[i], rs[i])
  }

  lemma RecomposeWeighed(G: Pedersen, cof: nat, cs: seq<nat>, bs: seq<nat>, rs: seq<nat>, b: nat, r: nat)
    requires Good(G, cof) && |cs| < 128 && |bs| == |rs| == |cs| && Recompose(G, cs) == Elem(G, Weigh(bs), Weigh(rs))
    ensures Recompose(G, cs + [Commit(G, b, r)]) == Elem(G, Weigh(bs + [b]), Weigh(rs + [r]))
  {
    WeighNext(bs, b);
    WeighNext(rs, r);
    RecomposeTo(G, cof, cs, Weigh(bs), Weigh(rs), b, r, Weigh(bs + [b]), Weigh(rs + [r]));
  }

  lemma RecomposeWhole(G: Pedersen, cof: nat, cs: seq<nat>, i: nat, bs: seq<nat>, rs: seq<nat>, b: nat, r: nat)
    requires Good(G, cof) && |cs| == i + 1 <= 128 && |bs| == |rs| == i && cs[i] == Commit(G, b, r)
    requires Recompose(G, cs[..i]) == Elem(G, Weigh(bs), Weigh(rs))
    ensures Recompose(G, cs) == Elem(G, Weigh(bs + [b]), Weigh(rs + [r]))
  {
    SplitLast(cs, i, Commit(G, b, r));
    RecomposeWeighed(G, cof, cs[..i], bs, rs, b, r);
  }

  lemma SplitLast(cs: seq<nat>, i: nat, c: nat)
    requires |cs| == i + 1 && cs[i] == c
    ensures cs == cs[..i] + [c]
  {
  }

  lemma RecomposeTo(G: Pedersen, cof: nat, cs: seq<nat>, low: nat, rest: nat, b: nat, r: nat, x: nat, y: nat)
    requires Good(G, cof) && |cs| < 128 && Recompose(G, cs) == Elem(G, low, rest)
    requires x == low + b * Pow2(|cs|) && y == rest + r * Pow2(|cs|)
    ensures Recompose(G, cs + [Commit(G, b, r)]) == Elem(G, x, y)
  {
    var u, v := RecomposeReduced(G, cof, cs, low, rest, b, r);
    ElemSame(G, u, v, x, y);
  }

  lemma RecomposeReduced(G: Pedersen, cof: nat, cs: seq<nat>, low: nat, rest: nat, b: nat, r: nat) returns (u: int, v: int)
    requires Good(G, cof) && |cs| < 128 && Recompose(G, cs) == Elem(G, low, rest)
    ensures Recompose(G, cs + [Commit(G, b, r)]) == Elem(G, u, v)
    ensures Red(u, G.q) == Red(low + b * Pow2(|cs|), G.q) && Red(v, G.q) == Red(rest + r * Pow2(|cs|), G.q)
  {
    var w := Red(Weight(|cs|), G.q);
    u, v := low + b * w, rest + r * w;
    RecomposeRaw(G, cof, cs, low, rest, b, r, w);
    SmallWeight(|cs|);
    WeightReduced(low, b, Pow2(|cs|), G.q);
    WeightReduced(rest, r, Pow2(|cs|), G.q);
  }

  lemma ExtractedNext(G: Pedersen, cs: seq<nat>, ps: seq<BitProof>, ps': seq<BitProof>, i: nat, bs: seq<nat>, rs: seq<nat>,
                      b: nat, r: nat)
    requires Usable(G) && |ps| == |ps'| == |cs| == i + 1 && AllExtracted(G, cs[..i], ps[..i], ps'[..i], bs, rs)
    requires Extracted(G, ps[i], ps'[i], b, r) && cs[i] == Commit(G, b, r)
    ensures AllExtracted(G, cs, ps, ps', bs + [b], rs + [r])
  {
    forall j | 0 <= j < |cs|
      ensures Extracted(G, ps[j], ps'[j], (bs + [b])[j], (rs + [r])[j]) && cs[j] == Commit(G, (bs + [b])[j], (rs + [r])[j])
    {
      if j < i {
        assert cs[..i][j] == cs[j] && ps[..i][j] == ps[j] && ps'[..i][j] == ps'[j];
      }
    }
  }

  /** Bits that open recompose to their weighted sum. */
  lemma {:induction false} RecomposeSound(hash: HashFn, hash': HashFn, G: Pedersen, cof: nat, cs: seq<nat>,
                                          ps: seq<BitProof>, ps': seq<BitProof>)
    returns (bs: seq<nat>, rs: seq<nat>)
    requires Good(G, cof) && Field(G.q) && |ps| == |ps'| == |cs| <= 128
    requires AllVerify(hash, G, cs, ps) && AllVerify(hash', G, cs, ps') && AllRechallenged(hash, hash', G, cs, ps, ps')
    ensures AllExtracted(G, cs, ps, ps', bs, rs) && Recompose(G, cs) == Elem(G, Weigh(bs), Weigh(rs))
    decreases |cs|
  {
    bs, rs := [], [];
    if cs == [] {
      ElemOfOne(G, cof);
    } else {
      var i := |cs| - 1;
      bs, rs := RecomposeSound(hash, hash', G, cof, cs[..i], ps[..i], ps'[..i]);
      var b, r := BitSound(hash, hash', G, cof, cs[i], ps[i], ps'[i]);
      RecomposeWhole(G, cof, cs, i, bs, rs, b, r);
      ExtractedNext(G, cs, ps, ps', i, bs, rs, b, r);
      bs, rs := bs + [b], rs + [r];
    }
  }

  /** Two range proofs over the same bit commitments, with answers to different challenges for every
      bit. */
  ghost predicate Reproved(hash: HashFn, hash': HashFn, G: Pedersen, proof: RangeProof, proof': RangeProof)
    requires Usable(G)
  {
    && proof.commitments == proof'.commitments && proof.bits <= 128
    && |proof.proofs| == |proof'.proofs| == |proof.commitments|
    && AllRechallenged(hash, hash', G, proof.commitments, proof.proofs, proof'.proofs)
  }

  /** The opening of c that the bits determine: an amount below 2^bits, and its blinding. */
  ghost predicate RangeOpened(G: Pedersen, c: nat, proof: RangeProof, proof': RangeProof, bs: seq<nat>, rs: seq<nat>)
    requires Usable(G)
  {
    && |proof.proofs| == |proof'.proofs| == |proof.commitments| == proof.bits
    && AllExtracted(G, proof.commitments, proof.proofs, proof'.proofs, bs, rs)
    && Weigh(bs) < Pow2(proof.bits) && c == Commit(G, Weigh(bs), Weigh(rs))
  }

  /** Range proofs are sound: the bits and blindings that two accepted ones determine open c in range. */
  lemma RangeSound(hash: HashFn, hash': HashFn, G: Pedersen, cof: nat, c: nat, proof: RangeProof, proof': RangeProof)
    returns (bs: seq<nat>, rs: seq<nat>)
    requires Good(G, cof) && Field(G.q) && Reproved(hash, hash', G, proof, proof')
    requires RangeVerifies(hash, G, c, proof) && RangeVerifies(hash', G, c, proof')
    ensures RangeOpened(G, c, proof, proof', bs, rs)
  {
    bs, rs := RecomposeSound(hash, hash', G, cof, proof.commitments, proof.proofs, proof'.proofs);
    BitsFit(bs);
  }

  // ---------- transactions ----------

  function Sum(s: seq<nat>): nat {
    if s == [] then 0 else Sum(s[..|s| - 1]) + s[|s| - 1]
  }

  ghost predicate Opened(G: Pedersen, cs: seq<nat>, vs: seq<nat>, rs: seq<nat>)
    requires Usable(G)
  {
    |vs| == |rs| == |cs| && forall i :: 0 <= i < |cs| ==> cs[i] == Commit(G, vs[i], rs[i])
  }

  lemma {:induction false} ProductOpens(G: Pedersen, cof: nat, cs: seq<nat>, vs: seq<nat>, rs: seq<nat>)
    requires Good(G, cof) && Opened(G, cs, vs, rs)
    ensures Product(G, cs) == Elem(G, Sum(vs), Sum(rs))
    decreases |cs|
  {
    if cs == [] {
      ElemOfOne(G, cof);
    } else {
      var n := |cs| - 1;
      ProductOpens(G, cof, cs[..n], vs[..n], rs[..n]);
      ElemMul(G, cof, Sum(vs[..n]), Sum(rs[..n]), vs[n], rs[n]);
    }
  }

  lemma ElemMember(G: Pedersen, cof: nat, x: int, y: int)
    requires Good(G, cof)
    ensures Member(G, Elem(G, x, y))
  {
    ElemExp(G, cof, x, y, G.q);
    Multiple(x, G.q);
    Multiple(y, G.q);
    ElemSame(G, x * G.q, y * G.q, 0, 0);
    ElemOfOne(G, cof);
    MulLess(G.p, Exp(G.p, G.g, Red(x, G.q)), Exp(G.p, G.h, Red(y, G.q)));
  }

  lemma Multiple(x: int, q: nat)
    requires q > 0
    ensures Red(x * q, q) == Red(0, q)
  {
    assert x * q == 0 + q * x;
    RedCongruent(x * q, 0, q, x);
  }

  ghost function BalanceChallenge(hash: HashFn, G: Pedersen, d: nat, a: nat): nat
    requires Usable(G)
  {
    Challenge(hash, G, BALANCE_TAG, [d, a])
  }

  /** Two balance proofs for one residual and one announcement, with different challenges. */
  ghost predicate Rebalanced(hash: HashFn, hash': HashFn, G: Pedersen, d: nat, b: BalanceProof, b': BalanceProof)
    requires Usable(G)
  {
    b.a == b'.a && BalanceChallenge(hash, G, d, b.a) != BalanceChallenge(hash', G, d, b.a)
  }

  /** The exponent of the residual that the two balance proofs determine. */
  ghost predicate Balances(hash: HashFn, hash': HashFn, G: Pedersen, d: nat, b: BalanceProof, b': BalanceProof, x: nat)
    requires Usable(G)
  {
    Solves(G.q, x, BalanceChallenge(hash, G, d, b.a), BalanceChallenge(hash', G, d, b.a), b.s, b'.s)
  }

  lemma ChallengeReduced(hash: HashFn, G: Pedersen, d: nat, a: nat)
    requires Usable(G)
    ensures Red(BalanceChallenge(hash, G, d, a), G.q) == BalanceChallenge(hash, G, d, a)
  {
    RedTwice(FromLE(hash(BALANCE_TAG + Flatten([d, a]))[..16]), G.q);
  }

  lemma BalanceSound(hash: HashFn, hash': HashFn, G: Pedersen, cof: nat, d: nat, b: BalanceProof, b': BalanceProof)
    returns (x: nat)
    requires Good(G, cof) && Field(G.q) && Member(G, d) && Rebalanced(hash, hash', G, d, b, b')
    requires BalanceVerifies(hash, G, d, b) && BalanceVerifies(hash', G, d, b')
    ensures d == Elem(G, 0, x) && Balances(hash, hash', G, d, b, b', x)
  {
    var e, f := BalanceChallenge(hash, G, d, b.a), BalanceChallenge(hash', G, d, b.a);
    ChallengeReduced(hash, G, d, b.a);
    ChallengeReduced(hash', G, d, b.a);
    AnswersExtract(G.p, ExpH(G, b.s), ExpH(G, b'.s), b.a, Pow(G, d, e), Pow(G, d, f));
    x := BranchSound(G, cof, d, b.s, b'.s, e, f);
  }

  /** An element with two openings gives the exponents away: net is zero, or g is the power of h
      that the openings determine, z net = x - delta. */
  lemma TwoOpenings(G: Pedersen, cof: nat, net: int, delta: int, x: int) returns (z: nat)
    requires Good(G, cof) && Field(G.q) && Elem(G, net, delta) == Elem(G, 0, x)
    ensures Balanced(G, net, delta, x, z)
  {
    z := 0;
    if Red(net, G.q) != 0 {
      Separate(G, cof, net, delta, x);
      RedBelow(net, G.q);
      assert Invertible(G.q, Red(net, G.q));
      var k: nat :| Mul(G.q, Red(net, G.q), k) == 1;
      ElemOfG(G, cof);
      ElemMember(G, cof, 1, 0);
      HMember(G, cof);
      Root(G, G.g, G.h, x - delta, net, k);
      SolveExact(G.q, x - delta, net, k);
      z := Red((x - delta) * k, G.q);
      RedTwice((x - delta) * k, G.q);
      ElemOfH(G, cof, z);
    }
  }

  lemma HMember(G: Pedersen, cof: nat)
    requires Good(G, cof)
    ensures Member(G, G.h)
  {
  }

  lemma Separate(G: Pedersen, cof: nat, net: int, delta: int, x: int)
    requires Good(G, cof) && Elem(G, net, delta) == Elem(G, 0, x)
    ensures Power(G, G.h, x - delta) == Power(G, G.g, net)
  {
    ElemMul(G, cof, net, delta, 0, -delta);
    ElemMul(G, cof, 0, x, 0, -delta);
    PowerZero(G, G.g);
    PowerZero(G, G.h);
    ExpLess(G.p, G.g, Red(net, G.q));
    ExpLess(G.p, G.h, Red(x - delta, G.q));
    MulOne(G.p, Power(G, G.g, net));
    MulOne(G.p, Power(G, G.h, x - delta));
  }

  /** The amounts opened in a transaction balance modulo q, or g is a power of h whose exponent the
      openings and the balance answers determine. */
  ghost predicate Balanced(G: Pedersen, net: int, delta: int, x: int, z: nat)
    requires Usable(G)
  {
    Red(net, G.q) == 0 || (G.g == Elem(G, 0, z) && Red(z * net, G.q) == Red(x - delta, G.q))
  }

  /** What two accepted runs of a transaction determine, given openings of its inputs. */
  lemma OpenedBalance(hash: HashFn, hash': HashFn, G: Pedersen, cof: nat, tx: Tx, b': BalanceProof,
                      vin: seq<nat>, rin: seq<nat>, vout: seq<nat>, rout: seq<nat>)
    returns (net: int, delta: int, x: nat, z: nat)
    requires Good(G, cof) && Field(G.q) && Opened(G, tx.inputs, vin, rin) && Opened(G, tx.outputs, vout, rout)
    requires var d := Residual(G, tx.inputs, tx.outputs, tx.fee);
      Rebalanced(hash, hash', G, d, tx.balance, b') && BalanceVerifies(hash, G, d, tx.balance) && BalanceVerifies(hash', G, d, b')
    ensures Balances(hash, hash', G, Residual(G, tx.inputs, tx.outputs, tx.fee), tx.balance, b', x)
    ensures net == Sum(vin) - Sum(vout) - tx.fee && delta == Sum(rin) - Sum(rout) && Balanced(G, net, delta, x, z)
  {
    ProductOpens(G, cof, tx.inputs, vin, rin);
    ProductOpens(G, cof, tx.outputs, vout, rout);
    net, delta := Sum(vin) - Sum(vout) - tx.fee, Sum(rin) - Sum(rout);
    ResidualIs(G, cof, tx.inputs, tx.outputs, tx.fee, Sum(vin), Sum(vout), Sum(rin), Sum(rout));
    ElemMember(G, cof, net, delta);
    x := BalanceSound(hash, hash', G, cof, Residual(G, tx.inputs, tx.outputs, tx.fee), tx.balance, b');
    z := TwoOpenings(G, cof, net, delta, x);
  }

  /** A transaction accepted twice, with different challenges throughout. */
  ghost predicate AcceptedTwice(hash: HashFn, hash': HashFn, G: Pedersen, tx: Tx, tx': Tx, bits: nat)
    requires Usable(G)
  {
    && TxVerifies(hash, G, tx, bits) && TxVerifies(hash', G, tx', bits)
    && tx.inputs == tx'.inputs && tx.outputs == tx'.outputs && tx.fee == tx'.fee
    && Rebalanced(hash, hash', G, Residual(G, tx.inputs, tx.outputs, tx.fee), tx.balance, tx'.balance)
    && forall i :: 0 <= i < |tx.outputs| ==> Reproved(hash, hash', G, tx.ranges[i], tx'.ranges[i])
  }

  function Weights(s: seq<seq<nat>>): (w: seq<nat>)
    ensures |w| == |s| && forall i :: 0 <= i < |s| ==> w[i] == Weigh(s[i])
  {
    seq(|s|, i requires 0 <= i < |s| => Weigh(s[i]))
  }

  /** The first n outputs open in range as their answers determine. */
  ghost predicate OutputsOpened(G: Pedersen, tx: Tx, tx': Tx, bits: nat, n: nat, bss: seq<seq<nat>>, rss: seq<seq<nat>>)
    requires Usable(G) && |tx.outputs| == |tx.ranges| == |tx'.ranges| && n <= |tx.outputs|
  {
    && |bss| == |rss| == n
    && forall i :: 0 <= i < n ==> RangeOpened(G, tx.outputs[i], tx.ranges[i], tx'.ranges[i], bss[i], rss[i]) && Weigh(bss[i]) < Pow2(bits)
  }

  lemma OutputsNext(G: Pedersen, tx: Tx, tx': Tx, bits: nat, n: nat, bss: seq<seq<nat>>, rss: seq<seq<nat>>, bs: seq<nat>, rs: seq<nat>)
    requires Usable(G) && |tx.outputs| == |tx.ranges| == |tx'.ranges| && 0 < n <= |tx.outputs| && OutputsOpened(G, tx, tx', bits, n - 1, bss, rss)
    requires RangeOpened(G, tx.outputs[n - 1], tx.ranges[n - 1], tx'.ranges[n - 1], bs, rs) && tx.ranges[n - 1].bits == bits
    ensures OutputsOpened(G, tx, tx', bits, n, bss + [bs], rss + [rs])
  {
    forall i | 0 <= i < n
      ensures RangeOpened(G, tx.outputs[i], tx.ranges[i], tx'.ranges[i], (bss + [bs])[i], (rss + [rs])[i]) && Weigh((bss + [bs])[i]) < Pow2(bits)
    {
      if i < n - 1 {
        assert RangeOpened(G, tx.outputs[i], tx.ranges[i], tx'.ranges[i], bss[i], rss[i]);
      }
    }
  }

  lemma {:induction false} OpenOutputs(hash: HashFn, hash': HashFn, G: Pedersen, cof: nat, tx: Tx, tx': Tx, bits: nat, n: nat)
    returns (bss: seq<seq<nat>>, rss: seq<seq<nat>>)
    requires Good(G, cof) && Field(G.q) && AcceptedTwice(hash, hash', G, tx, tx', bits) && n <= |tx.outputs|
    ensures OutputsOpened(G, tx, tx', bits, n, bss, rss)
    decreases n
  {
    bss, rss := [], [];
    if n > 0 {
      bss, rss := OpenOutputs(hash, hash', G, cof, tx, tx', bits, n - 1);
      var bs, rs := RangeSound(hash, hash', G, cof, tx.outputs[n - 1], tx.ranges[n - 1], tx'.ranges[n - 1]);
      OutputsNext(G, tx, tx', bits, n, bss, rss, bs, rs);
      bss, rss := bss + [bs], rss + [rs];
    }
  }

  lemma OutputsOpen(G: Pedersen, tx: Tx, tx': Tx, bits: nat, bss: seq<seq<nat>>, rss: seq<seq<nat>>)
    requires Usable(G) && |tx.outputs| == |tx.ranges| == |tx'.ranges| && OutputsOpened(G, tx, tx', bits, |tx.outputs|, bss, rss)
    ensures Opened(G, tx.outputs, Weights(bss), Weights(rss))
  {
    forall i | 0 <= i < |tx.outputs|
      ensures tx.outputs[i] == Commit(G, Weights(bss)[i], Weights(rss)[i])
    {
      assert RangeOpened(G, tx.outputs[i], tx.ranges[i], tx'.ranges[i], bss[i], rss[i]);
    }
  }

  /** Transactions are sound: the answers determine an opening of every output in range, and with any
      openings of the inputs the amounts balance modulo q, or the discrete logarithm of g comes out. */
  lemma TxSound(hash: HashFn, hash': HashFn, G: Pedersen, cof: nat, tx: Tx, tx': Tx, bits: nat, vin: seq<nat>, rin: seq<nat>)
    returns (bss: seq<seq<nat>>, rss: seq<seq<nat>>, net: int, delta: int, x: nat, z: nat)
    requires Good(G, cof) && Field(G.q) && AcceptedTwice(hash, hash', G, tx, tx', bits) && Opened(G, tx.inputs, vin, rin)
    ensures OutputsOpened(G, tx, tx', bits, |tx.outputs|, bss, rss)
    ensures Balances(hash, hash', G, Residual(G, tx.inputs, tx.outputs, tx.fee), tx.balance, tx'.balance, x)
    ensures net == Sum(vin) - Sum(Weights(bss)) - tx.fee && delta == Sum(rin) - Sum(Weights(rss))
    ensures Balanced(G, net, delta, x, z)
  {
    bss, rss := OpenOutputs(hash, hash', G, cof, tx, tx', bits, |tx.outputs|);
    OutputsOpen(G, tx, tx', bits, bss, rss);
    net, delta, x, z := OpenedBalance(hash, hash', G, cof, tx, tx'.balance, vin, rin, Weights(bss), Weights(rss));
  }
}
