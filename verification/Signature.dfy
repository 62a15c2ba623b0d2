/** The Lamport one-time signature of `crypto.rs`: 256 pairs of secret values derived from a
    seed; a signature reveals one value of each pair, chosen by the bits of the message hash. */
module Lamport {
  import opened Arith
  import opened Bytes
  import opened Bits

  const BITS: nat := 256
  const SK_TAG: seq<byte> := [115, 107]

  lemma TagSpelled()
    ensures Spells(SK_TAG, "sk")
  {
  }

  /** What is hashed into one secret value. */
  function SecretInput(domain: seq<byte>, seed: seq<byte>, i: nat, bit: byte): seq<byte> {
    seed + domain + SK_TAG + LE(i, 2) + [bit]
  }

  function SecretValue(h: HashFn, domain: seq<byte>, seed: seq<byte>, i: nat, bit: byte): Digest {
    h(SecretInput(domain, seed, i, bit))
  }

  lemma SecretInputLayout(domain: seq<byte>, seed: seq<byte>, i: nat, bit: byte)
    ensures var s, m, n := SecretInput(domain, seed, i, bit), |seed|, |domain|;
      && |s| == m + n + 5 && s[..m] == seed && s[m..m + n] == domain && s[m + n..m + n + 2] == SK_TAG
      && s[m + n + 2..m + n + 4] == LE(i, 2) && s[m + n + 4] == bit
  {
  }

  /** For seeds of one length, no two secret values are hashed from the same bytes. */
  lemma SecretInputInjective(domain: seq<byte>, seed: seq<byte>, i: nat, bit: byte, seed': seq<byte>, i': nat, bit': byte)
    requires |seed| == |seed'| && i < BITS && i' < BITS
    requires SecretInput(domain, seed, i, bit) == SecretInput(domain, seed', i', bit')
    ensures seed == seed' && i == i' && bit == bit'
  {
    var s, t := SecretInput(domain, seed, i, bit), SecretInput(domain, seed', i', bit');
    var n := |seed| + |domain| + |SK_TAG|;
    assert s[..|seed|] == seed && t[..|seed|] == seed';
    assert s[n..n + 2] == LE(i, 2) && t[n..n + 2] == LE(i', 2) && s[n + 2] == bit && t[n + 2] == bit';
    Widths();
    LEInjective(i, i', 2);
  }

  function MsgBit(hash: Digest, i: nat): (b: nat)
    requires i < BITS
    ensures b < 2
  {
    hash[i / 8] / Pow2(i % 8) % 2
  }

  function PublicPair(h: HashFn, domain: seq<byte>, seed: seq<byte>, i: nat): (s: seq<byte>)
    ensures |s| == 64
  {
    h(SecretValue(h, domain, seed, i, 0)) + h(SecretValue(h, domain, seed, i, 1))
  }

  lemma PairHalf(h: HashFn, domain: seq<byte>, seed: seq<byte>, i: nat, bit: nat)
    requires bit < 2
    ensures PublicPair(h, domain, seed, i)[bit * 32..bit * 32 + 32] == h(SecretValue(h, domain, seed, i, bit))
  {
    var a: seq<byte>, b: seq<byte> := h(SecretValue(h, domain, seed, i, 0)), h(SecretValue(h, domain, seed, i, 1));
    assert (a + b)[..32] == a && (a + b)[32..] == b;
  }

  /** The public halves of the first `n` pairs. */
  function PublicPrefix(h: HashFn, domain: seq<byte>, seed: seq<byte>, n: nat): (s: seq<byte>)
    ensures |s| == n * 64
  {
    if n == 0 then [] else
      PublicPrefix(h, domain, seed, n - 1) + PublicPair(h, domain, seed, n - 1)
  }

  function PublicKey(h: HashFn, domain: seq<byte>, seed: seq<byte>): seq<byte> {
    PublicPrefix(h, domain, seed, BITS)
  }

  /** The secret values revealed for the first `n` message bits. */
  function SignPrefix(h: HashFn, domain: seq<byte>, seed: seq<byte>, hash: Digest, n: nat): (s: seq<byte>)
    requires n <= BITS
    ensures |s| == n * 32
  {
    if n == 0 then [] else
      SignPrefix(h, domain, seed, hash, n - 1) + SecretValue(h, domain, seed, n - 1, MsgBit(hash, n - 1))
  }

  function Sign(h: HashFn, domain: seq<byte>, seed: seq<byte>, msg: seq<byte>): seq<byte> {
    SignPrefix(h, domain, seed, h(msg), BITS)
  }

  predicate BitVerifies(h: HashFn, public: seq<byte>, hash: Digest, sig: seq<byte>, i: nat)
    requires |public| == BITS * 64 && |sig| == BITS * 32 && i < BITS
  {
    var at := i * 2 + MsgBit(hash, i);
    h(sig[i * 32..i * 32 + 32]) == public[at * 32..at * 32 + 32]
  }

  predicate Verifies(h: HashFn, public: seq<byte>, msg: seq<byte>, sig: seq<byte>) {
    && |public| == BITS * 64 && |sig| == BITS * 32
    && forall i :: 0 <= i < BITS ==> BitVerifies(h, public, h(msg), sig, i)
  }

  lemma {:induction false} PublicAt(h: HashFn, domain: seq<byte>, seed: seq<byte>, n: nat, i: nat, bit: nat)
    requires i < n && bit < 2
    ensures (i * 2 + bit) * 32 + 32 <= |PublicPrefix(h, domain, seed, n)|
    ensures PublicPrefix(h, domain, seed, n)[(i * 2 + bit) * 32..(i * 2 + bit) * 32 + 32]
         == h(SecretValue(h, domain, seed, i, bit))
  {
    var rest, pair := PublicPrefix(h, domain, seed, n - 1), PublicPair(h, domain, seed, n - 1);
    var at := (i * 2 + bit) * 32;
    assert PublicPrefix(h, domain, seed, n) == rest + pair;
    if i < n - 1 {
      SliceLeft(rest, pair, at, at + 32);
      PublicAt(h, domain, seed, n - 1, i, bit);
    } else {
      assert at == |rest| + bit * 32;
      SliceRight(rest, pair, bit * 32, bit * 32 + 32);
      PairHalf(h, domain, seed, i, bit);
    }
  }

  lemma {:induction false} SignAt(h: HashFn, domain: seq<byte>, seed: seq<byte>, hash: Digest, n: nat, i: nat)
    requires i < n <= BITS
    ensures SignPrefix(h, domain, seed, hash, n)[i * 32..i * 32 + 32]
         == SecretValue(h, domain, seed, i, MsgBit(hash, i))
  {
    if i < n - 1 {
      SignAt(h, domain, seed, hash, n - 1, i);
    }
  }

  /** What `sign` produces, `verify` accepts under the matching public key. */
  lemma SignVerifies(h: HashFn, domain: seq<byte>, seed: seq<byte>, msg: seq<byte>)
    ensures Verifies(h, PublicKey(h, domain, seed), msg, Sign(h, domain, seed, msg))
  {
    forall i | 0 <= i < BITS
      ensures BitVerifies(h, PublicKey(h, domain, seed), h(msg), Sign(h, domain, seed, msg), i)
    {
      PublicAt(h, domain, seed, BITS, i, MsgBit(h(msg), i));
      SignAt(h, domain, seed, h(msg), BITS, i);
    }
  }

  /** The hash collides on the value revealed for message bit i and the secret value of that bit. */
  ghost predicate ForgedBit(h: HashFn, domain: seq<byte>, seed: seq<byte>, msg: seq<byte>, sig: seq<byte>, i: nat) {
    && i < BITS && |sig| == BITS * 32
    && Collide(h, sig[i * 32..i * 32 + 32], SecretValue(h, domain, seed, i, MsgBit(h(msg), i)))
  }

  /** And nothing else: a signature accepted under that public key is the one `sign` produces, or
      some value in it collides with the secret value it stands for. */
  lemma OnlySecretOpens(h: HashFn, domain: seq<byte>, seed: seq<byte>, msg: seq<byte>, sig: seq<byte>)
    returns (i: nat)
    requires Verifies(h, PublicKey(h, domain, seed), msg, sig)
    ensures sig == Sign(h, domain, seed, msg) || ForgedBit(h, domain, seed, msg, sig, i)
  {
    i := PrefixOpens(h, domain, seed, msg, sig, BITS);
    assert sig[..BITS * 32] == sig;
  }

  lemma BitOpens(h: HashFn, domain: seq<byte>, seed: seq<byte>, msg: seq<byte>, sig: seq<byte>, i: nat)
    requires Verifies(h, PublicKey(h, domain, seed), msg, sig) && i < BITS
    ensures h(sig[i * 32..i * 32 + 32]) == h(SecretValue(h, domain, seed, i, MsgBit(h(msg), i)))
  {
    assert BitVerifies(h, PublicKey(h, domain, seed), h(msg), sig, i);
    PublicAt(h, domain, seed, BITS, i, MsgBit(h(msg), i));
  }

  lemma OneMoreValue(sig: seq<byte>, i: nat)
    requires i * 32 + 32 <= |sig|
    ensures sig[..(i + 1) * 32] == sig[..i * 32] + sig[i * 32..i * 32 + 32]
  {
  }

  lemma {:induction false} PrefixOpens(h: HashFn, domain: seq<byte>, seed: seq<byte>, msg: seq<byte>, sig: seq<byte>, n: nat)
    returns (i: nat)
    requires Verifies(h, PublicKey(h, domain, seed), msg, sig) && n <= BITS
    ensures sig[..n * 32] == SignPrefix(h, domain, seed, h(msg), n) || ForgedBit(h, domain, seed, msg, sig, i)
  {
    i := 0;
    if n > 0 {
      i := PrefixOpens(h, domain, seed, msg, sig, n - 1);
      if sig[..(n - 1) * 32] == SignPrefix(h, domain, seed, h(msg), n - 1) {
        i := n - 1;
        BitOpens(h, domain, seed, msg, sig, i);
        OneMoreValue(sig, i);
      }
    }
  }

  // ---------- a signature binds its message ----------

  function BitAt(x: nat, j: nat): nat { x / Pow2(j) % 2 }

  lemma {:induction false} BitsDetermine(x: nat, y: nat, n: nat)
    requires x < Pow2(n) && y < Pow2(n) && forall j :: 0 <= j < n ==> BitAt(x, j) == BitAt(y, j)
    ensures x == y
    decreases n
  {
    if n > 0 {
      assert BitAt(x, 0) == BitAt(y, 0) && Pow2(0) == 1;
      forall j | 0 <= j < n - 1
        ensures BitAt(x / 2, j) == BitAt(y / 2, j)
      {
        DivDiv(x, 2, Pow2(j));
        DivDiv(y, 2, Pow2(j));
        assert BitAt(x, j + 1) == BitAt(y, j + 1);
      }
      BitsDetermine(x / 2, y / 2, n - 1);
    }
  }

  lemma SameByte(d: Digest, e: Digest, k: nat)
    requires k < 32 && forall i :: 0 <= i < BITS ==> MsgBit(d, i) == MsgBit(e, i)
    ensures d[k] == e[k]
  {
    forall j | 0 <= j < 8
      ensures BitAt(d[k], j) == BitAt(e[k], j)
    {
      var i := 8 * k + j;
      assert i / 8 == k && i % 8 == j && MsgBit(d, i) == MsgBit(e, i);
    }
    assert Pow2(8) == 256;
    BitsDetermine(d[k], e[k], 8);
  }

  /** The 256 bits are the digest. */
  lemma BitsAreDigest(d: Digest, e: Digest)
    requires forall i :: 0 <= i < BITS ==> MsgBit(d, i) == MsgBit(e, i)
    ensures d == e
  {
    forall k | 0 <= k < 32
      ensures d[k] == e[k]
    {
      SameByte(d, e, k);
    }
  }

  /** Bit j of a number, by halving it j times. */
  function HalvedBit(x: nat, j: nat): nat {
    if j == 0 then x % 2 else HalvedBit(x / 2, j - 1)
  }

  function Halved(x: nat, n: nat): nat {
    if n == 0 then x else Halved(x / 2, n - 1)
  }

  function Doubled(x: nat, n: nat): nat {
    if n == 0 then x else 2 * Doubled(x, n - 1)
  }

  lemma {:induction false} HalvedBitIsBit(x: nat, j: nat)
    ensures HalvedBit(x, j) == BitAt(x, j)
    decreases j
  {
    if j > 0 {
      HalvedBitIsBit(x / 2, j - 1);
      DivDiv(x, 2, Pow2(j - 1));
    } else {
      assert Pow2(0) == 1;
    }
  }

  /** Bits below the n-th do not see what is added above it. */
  lemma {:induction false} LowBits(r: nat, t: nat, j: nat, n: nat)
    requires j < n
    ensures HalvedBit(r + Doubled(t, n), j) == HalvedBit(r, j)
    decreases j
  {
    if j > 0 {
      LowBits(r / 2, t, j - 1, n - 1);
      assert (r + Doubled(t, n)) / 2 == r / 2 + Doubled(t, n - 1);
    }
  }

  /** And halving n times leaves just that. */
  lemma {:induction false} HighPart(r: nat, t: nat, n: nat)
    requires r < Pow2(n)
    ensures Halved(r + Doubled(t, n), n) == t
    decreases n
  {
    if n > 0 {
      HighPart(r / 2, t, n - 1);
      assert (r + Doubled(t, n)) / 2 == r / 2 + Doubled(t, n - 1);
    }
  }

  lemma {:induction false} BitShift(x: nat, j: nat, n: nat)
    ensures HalvedBit(x, n + j) == HalvedBit(Halved(x, n), j)
    decreases n
  {
    if n > 0 {
      BitShift(x / 2, j, n - 1);
    }
  }

  lemma ByteFirst(s: seq<byte>)
    requires s != []
    ensures FromLE(s) == s[0] + Doubled(FromLE(s[1..]), 8) && s[0] < Pow2(8)
  {
    var r := FromLE(s[1..]);
    assert Doubled(r, 1) == 2 * r && Doubled(r, 2) == 4 * r && Doubled(r, 3) == 8 * r && Doubled(r, 4) == 16 * r;
    assert Doubled(r, 5) == 32 * r && Doubled(r, 6) == 64 * r && Doubled(r, 7) == 128 * r;
    assert Pow2(8) == 256;
  }

  lemma {:induction false} DigestBit(s: seq<byte>, k: nat, j: nat)
    requires k < |s| && j < 8
    ensures HalvedBit(FromLE(s), 8 * k + j) == HalvedBit(s[k], j)
    decreases k
  {
    var rest := FromLE(s[1..]);
    ByteFirst(s);
    if k == 0 {
      LowBits(s[0], rest, j, 8);
    } else {
      BitShift(FromLE(s), 8 * (k - 1) + j, 8);
      HighPart(s[0], rest, 8);
      DigestBit(s[1..], k - 1, j);
    }
  }

  /** Bit i of a digest is bit i of the number it is in little-endian order. */
  lemma MsgBitIsBit(d: Digest, i: nat)
    requires i < BITS
    ensures MsgBit(d, i) == HalvedBit(FromLE(d), i)
  {
    DigestBit(d, i / 8, i % 8);
    assert 8 * (i / 8) + i % 8 == i;
    HalvedBitIsBit(d[i / 8], i % 8);
  }

  /** The two secret values of pair i collide, or what they were hashed from. */
  ghost predicate PairCollides(h: HashFn, domain: seq<byte>, seed: seq<byte>, i: nat) {
    && i < BITS
    && (Collide(h, SecretValue(h, domain, seed, i, 0), SecretValue(h, domain, seed, i, 1))
        || Collide(h, SecretInput(domain, seed, i, 0), SecretInput(domain, seed, i, 1)))
  }

  /** A signature of one message verifies for another only if the two have the same digest, or a pair
      of secret values collides. */
  lemma SignatureBindsMessage(h: HashFn, domain: seq<byte>, seed: seq<byte>, msg: seq<byte>, msg': seq<byte>)
    returns (i: nat)
    requires Verifies(h, PublicKey(h, domain, seed), msg', Sign(h, domain, seed, msg))
    ensures h(msg) == h(msg') || PairCollides(h, domain, seed, i)
  {
    i := 0;
    if h(msg) != h(msg') {
      i := DifferingBit(h(msg), h(msg'));
      BitOpens(h, domain, seed, msg', Sign(h, domain, seed, msg), i);
      SignAt(h, domain, seed, h(msg), BITS, i);
      if SecretInput(domain, seed, i, 0) == SecretInput(domain, seed, i, 1) {
        SecretInputInjective(domain, seed, i, 0, seed, i, 1);
      }
    }
  }

  lemma DifferingBit(d: Digest, e: Digest) returns (i: nat)
    requires d != e
    ensures i < BITS && MsgBit(d, i) != MsgBit(e, i)
  {
    if forall j :: 0 <= j < BITS ==> MsgBit(d, j) == MsgBit(e, j) {
      BitsAreDigest(d, e);
    }
    i :| 0 <= i < BITS && MsgBit(d, i) != MsgBit(e, i);
  }

  method Keygen(h: HashFn, domain: seq<byte>, seed: seq<byte>) returns (secret: seq<byte>, public: seq<byte>)
    ensures secret == seed
    ensures public == PublicKey(h, domain, seed)
  {
    public := [];
    for i := 0 to BITS
      invariant public == PublicPrefix(h, domain, seed, i)
    {
      ghost var before := public;
      for bit := 0 to 2
        invariant bit == 0 ==> public == before
        invariant bit == 1 ==> public == before + h(SecretValue(h, domain, seed, i, 0))
        invariant bit == 2 ==> public == before + PublicPair(h, domain, seed, i)
      {
        public := public + h(SecretValue(h, domain, seed, i, bit));
      }
    }
    secret := seed;
  }

  method SignMessage(h: HashFn, domain: seq<byte>, secret: seq<byte>, msg: seq<byte>) returns (sig: seq<byte>)
    ensures sig == Sign(h, domain, secret, msg)
  {
    var hash := h(msg);
    sig := [];
    for i := 0 to BITS
      invariant sig == SignPrefix(h, domain, secret, hash, i)
    {
      sig := sig + SecretValue(h, domain, secret, i, MsgBit(hash, i));
    }
  }

  method VerifyMessage(h: HashFn, public: seq<byte>, msg: seq<byte>, sig: seq<byte>) returns (ok: bool)
    ensures ok <==> Verifies(h, public, msg, sig)
  {
    if |public| != BITS * 64 || |sig| != BITS * 32 {
      return false;
    }
    var hash := h(msg);
    for i := 0 to BITS
      invariant forall j :: 0 <= j < i ==> BitVerifies(h, public, hash, sig, j)
    {
      var at := i * 2 + MsgBit(hash, i);
      if h(sig[i * 32..i * 32 + 32]) != public[at * 32..at * 32 + 32] {
        assert !BitVerifies(h, public, hash, sig, i);
        return false;
      }
    }
    return true;
  }
}

/** The Merkle-rooted multi-message signer of `bft.rs`. */
module Merkle {
  import opened Bytes
  import opened Bits
  import L = Lamport

  /** The ASCII bytes of "bft-pq" and ":bft-ots:". */
  const DOMAIN: seq<byte> := [98, 102, 116, 45, 112, 113]
  const OTS_TAG: seq<byte> := [58, 98, 102, 116, 45, 111, 116, 115, 58]

  lemma TagsSpelled()
    ensures Spells(DOMAIN, "bft-pq") && Spells(OTS_TAG, ":bft-ots:")
  {
  }

  datatype OtsSig = OtsSig(index: nat, sig: seq<byte>, otsPub: seq<byte>, path: seq<Digest>)

  function Node(h: HashFn, a: Digest, b: Digest): Digest { h(a + b) }

  /** One level up: neighbours are hashed together, an odd last node with itself. */
  function NextLevel(h: HashFn, level: seq<Digest>): (r: seq<Digest>)
    ensures |r| == (|level| + 1) / 2
  {
    seq((|level| + 1) / 2, k requires 0 <= k < (|level| + 1) / 2 =>
      Node(h, level[2 * k], if 2 * k + 1 < |level| then level[2 * k + 1] else level[2 * k]))
  }

  function Root(h: HashFn, level: seq<Digest>): Digest
    decreases |level|
  {
    if level == [] then ZeroDigest()
    else if |level| == 1 then level[0]
    else Root(h, NextLevel(h, level))
  }

  function Sibling(level: seq<Digest>, index: nat): Digest
    requires index < |level|
  {
    var sib := if index % 2 == 0 then index + 1 else index - 1;
    if sib < |level| then level[sib] else level[index]
  }

  function AuthPath(h: HashFn, level: seq<Digest>, index: nat): seq<Digest>
    requires index < |level|
    decreases |level|
  {
    if |level| <= 1 then [] else
      [Sibling(level, index)] + AuthPath(h, NextLevel(h, level), index / 2)
  }

  /** What is hashed on the way up from a node and its sibling. */
  function ClimbBytes(acc: Digest, index: nat, sibling: Digest): (s: seq<byte>)
    ensures |s| == 64
  {
    var a: seq<byte>, b: seq<byte> := acc, sibling;
    if index % 2 == 0 then a + b else b + a
  }

  function Climb(h: HashFn, acc: Digest, index: nat, sibling: Digest): Digest {
    h(ClimbBytes(acc, index, sibling))
  }

  /** The climb `verify_sig` makes from a leaf along a path. */
  function Fold(h: HashFn, acc: Digest, index: nat, path: seq<Digest>): Digest
    decreases |path|
  {
    if path == [] then acc else Fold(h, Climb(h, acc, index, path[0]), index / 2, path[1..])
  }

  lemma ParentOf(h: HashFn, level: seq<Digest>, index: nat)
    requires index < |level| && |level| > 1
    ensures NextLevel(h, level)[index / 2] == Climb(h, level[index], index, Sibling(level, index))
    ensures AuthPath(h, level, index)[0] == Sibling(level, index)
    ensures AuthPath(h, level, index)[1..] == AuthPath(h, NextLevel(h, level), index / 2)
    ensures Root(h, level) == Root(h, NextLevel(h, level))
  {
    var k := index / 2;
    assert index == if index % 2 == 0 then 2 * k else 2 * k + 1;
    assert NextLevel(h, level)[k]
        == Node(h, level[2 * k], if 2 * k + 1 < |level| then level[2 * k + 1] else level[2 * k]);
  }

  /** Folding the authentication path of any leaf yields the root. */
  lemma {:induction false} PathReachesRoot(h: HashFn, level: seq<Digest>, index: nat)
    requires index < |level|
    ensures Fold(h, level[index], index, AuthPath(h, level, index)) == Root(h, level)
    decreases |level|
  {
    if |level| > 1 {
      ParentOf(h, level, index);
      PathReachesRoot(h, NextLevel(h, level), index / 2);
    }
  }

  /** These bytes are hashed on the climb from `acc` along `path`. */
  ghost predicate OnClimb(h: HashFn, acc: Digest, index: nat, path: seq<Digest>, s: seq<byte>)
    decreases |path|
  {
    path != [] && (s == ClimbBytes(acc, index, path[0])
                   || OnClimb(h, Climb(h, acc, index, path[0]), index / 2, path[1..], s))
  }

  /** And only that leaf does: a path as long as the tree is high that folds to the root either
      starts at the indexed leaf and is its authentication path, or the hash collides on bytes of
      its climb and bytes of the leaf's own climb. */
  lemma {:induction false} PathBindsLeaf(h: HashFn, level: seq<Digest>, index: nat, acc: Digest, path: seq<Digest>)
    returns (x: seq<byte>, y: seq<byte>)
    requires index < |level| && |path| == |AuthPath(h, level, index)|
    requires Fold(h, acc, index, path) == Root(h, level)
    ensures (acc == level[index] && path == AuthPath(h, level, index))
         || (Collide(h, x, y) && OnClimb(h, acc, index, path, x) && OnClimb(h, level[index], index, AuthPath(h, level, index), y))
    decreases |level|
  {
    if |level| <= 1 {
      x, y := [], [];
    } else {
      ParentOf(h, level, index);
      var up, sib := Climb(h, acc, index, path[0]), Sibling(level, index);
      x, y := PathBindsLeaf(h, NextLevel(h, level), index / 2, up, path[1..]);
      if up == Climb(h, level[index], index, sib) && path[1..] == AuthPath(h, level, index)[1..] {
        x, y := ClimbBytes(acc, index, path[0]), ClimbBytes(level[index], index, sib);
        if x == y {
          ClimbInjective(acc, path[0], level[index], sib, index);
          assert path == [path[0]] + path[1..];
        }
      }
    }
  }

  lemma ClimbInjective(a: Digest, s: Digest, b: Digest, t: Digest, index: nat)
    requires ClimbBytes(a, index, s) == ClimbBytes(b, index, t)
    ensures a == b && s == t
  {
    var x, y := ClimbBytes(a, index, s), ClimbBytes(b, index, t);
    if index % 2 == 0 {
      assert x[..32] == a && y[..32] == b && x[32..] == s && y[32..] == t;
    } else {
      assert x[..32] == s && y[..32] == t && x[32..] == a && y[32..] == b;
    }
  }

  /** `d` is a node of the tree over `level`: one of its own, or one further up. */
  ghost predicate InTree(h: HashFn, level: seq<Digest>, d: Digest)
    decreases |level|
  {
    d in level || (|level| > 1 && InTree(h, NextLevel(h, level), d))
  }

  lemma {:induction false} RootInTree(h: HashFn, level: seq<Digest>)
    requires level != []
    ensures InTree(h, level, Root(h, level))
    decreases |level|
  {
    if |level| > 1 {
      RootInTree(h, NextLevel(h, level));
    }
  }

  /** The two children that are hashed into node k of the next level. */
  function Pair(level: seq<Digest>, k: nat): (s: seq<byte>)
    requires k < (|level| + 1) / 2
    ensures |s| == 64
  {
    ClimbBytes(level[2 * k], 0, if 2 * k + 1 < |level| then level[2 * k + 1] else level[2 * k])
  }

  lemma PairHashes(h: HashFn, level: seq<Digest>, k: nat)
    requires k < (|level| + 1) / 2
    ensures NextLevel(h, level)[k] == h(Pair(level, k))
  {
  }

  /** These bytes are a pair of nodes hashed somewhere in the tree. */
  ghost predicate PairedInTree(h: HashFn, level: seq<Digest>, s: seq<byte>)
    decreases |level|
  {
    |level| > 1 && ((exists k :: 0 <= k < (|level| + 1) / 2 && s == Pair(level, k)) || PairedInTree(h, NextLevel(h, level), s))
  }

  /** Above the lowest level every node is the hash of a pair. */
  lemma {:induction false} UpperNode(h: HashFn, level: seq<Digest>, d: Digest) returns (s: seq<byte>)
    requires InTree(h, level, d)
    ensures d in level || (PairedInTree(h, level, s) && d == h(s) && |s| == 64)
    decreases |level|
  {
    s := [];
    if d !in level {
      var next := NextLevel(h, level);
      s := UpperNode(h, next, d);
      if d in next {
        var k :| 0 <= k < |next| && next[k] == d;
        s := Pair(level, k);
        PairHashes(h, level, k);
      }
    }
  }

  /** What hashes to a node above the lowest level is that node's children, or collides with them. */
  lemma {:induction false} ChildInTree(h: HashFn, level: seq<Digest>, p: Digest, index: nat, q: Digest)
    returns (y: seq<byte>)
    requires InTree(h, level, Climb(h, p, index, q))
    ensures Climb(h, p, index, q) in level || InTree(h, level, p)
         || (Collide(h, ClimbBytes(p, index, q), y) && PairedInTree(h, level, y))
    decreases |level|
  {
    y := [];
    var d := Climb(h, p, index, q);
    if d !in level {
      var next := NextLevel(h, level);
      y := ChildInTree(h, next, p, index, q);
      if d in next {
        var k :| 0 <= k < |next| && next[k] == d;
        y := Pair(level, k);
        PairHashes(h, level, k);
        if ClimbBytes(p, index, q) == y {
          ChildOfPair(level, k, p, index, q);
        }
      }
    }
  }

  lemma ChildOfPair(level: seq<Digest>, k: nat, p: Digest, index: nat, q: Digest)
    requires k < (|level| + 1) / 2 && ClimbBytes(p, index, q) == Pair(level, k)
    ensures p in level
  {
    var right := if 2 * k + 1 < |level| then level[2 * k + 1] else level[2 * k];
    if index % 2 == 0 {
      ClimbInjective(p, q, level[2 * k], right, 0);
    } else {
      assert ClimbBytes(p, index, q) == ClimbBytes(q, 0, p);
      ClimbInjective(q, p, level[2 * k], right, 0);
    }
  }

  /** The leaves are the digests of one-time keys. */
  ghost predicate KeyedLeaves(h: HashFn, leaves: seq<Digest>, keys: seq<seq<byte>>) {
    |keys| == |leaves| && forall i :: 0 <= i < |leaves| ==> |keys[i]| > 64 && leaves[i] == h(keys[i])
  }

  /** These bytes were hashed to build the tree: a key, or a pair of nodes. */
  ghost predicate Planted(h: HashFn, leaves: seq<Digest>, keys: seq<seq<byte>>, s: seq<byte>) {
    s in keys || PairedInTree(h, leaves, s)
  }

  /** Every point of a climb that ends in the root is a node of the tree, however long the path
      and whatever the index; or the hash collides on bytes of the climb and bytes of the tree. */
  lemma {:induction false} ClimbStaysInTree(h: HashFn, leaves: seq<Digest>, keys: seq<seq<byte>>, acc: Digest,
                                            index: nat, path: seq<Digest>)
    returns (x: seq<byte>, y: seq<byte>)
    requires leaves != [] && KeyedLeaves(h, leaves, keys) && Fold(h, acc, index, path) == Root(h, leaves)
    ensures InTree(h, leaves, acc) || (Collide(h, x, y) && OnClimb(h, acc, index, path, x) && Planted(h, leaves, keys, y))
    decreases |path|
  {
    if path == [] {
      RootInTree(h, leaves);
      x, y := [], [];
    } else {
      var up := Climb(h, acc, index, path[0]);
      x, y := ClimbStaysInTree(h, leaves, keys, up, index / 2, path[1..]);
      if InTree(h, leaves, up) {
        x := ClimbBytes(acc, index, path[0]);
        y := ChildInTree(h, leaves, acc, index, path[0]);
        if up in leaves {
          var i :| 0 <= i < |leaves| && leaves[i] == up;
          y := keys[i];
        }
      }
    }
  }

  /** The hash collides on bytes shown to `verify_sig`, the key or a pair on its climb, and bytes
      hashed to build the tree. */
  ghost predicate ShownCollides(h: HashFn, leaves: seq<Digest>, keys: seq<seq<byte>>, key: seq<byte>, index: nat,
                                path: seq<Digest>, x: seq<byte>, y: seq<byte>) {
    Collide(h, x, y) && (x == key || OnClimb(h, h(key), index, path, x)) && Planted(h, leaves, keys, y)
  }

  /** A key whose digest climbs to the root, along any path, is one of the keys at the leaves; or
      what was shown collides with what was planted. */
  lemma RootBindsKeys(h: HashFn, leaves: seq<Digest>, keys: seq<seq<byte>>, key: seq<byte>, index: nat, path: seq<Digest>)
    returns (i: nat, x: seq<byte>, y: seq<byte>)
    requires leaves != [] && KeyedLeaves(h, leaves, keys) && |key| > 64
    requires Fold(h, h(key), index, path) == Root(h, leaves)
    ensures (i < |keys| && key == keys[i]) || ShownCollides(h, leaves, keys, key, index, path, x, y)
  {
    i := 0;
    x, y := ClimbStaysInTree(h, leaves, keys, h(key), index, path);
    if InTree(h, leaves, h(key)) {
      x := key;
      y := UpperNode(h, leaves, h(key));
      if h(key) in leaves {
        i :| 0 <= i < |leaves| && leaves[i] == h(key);
        y := keys[i];
      }
    }
  }

  method MerkleRoot(h: HashFn, leaves: seq<Digest>) returns (root: Digest)
    ensures root == Root(h, leaves)
  {
    var level := leaves;
    while |level| > 1
      invariant Root(h, level) == Root(h, leaves)
      decreases |level|
    {
      level := HashPairs(h, level);
    }
    root := if level == [] then ZeroDigest() else level[0];
  }

  /** The `chunks(2)` loop shared by `merkle_root` and `auth_path`. */
  method HashPairs(h: HashFn, level: seq<Digest>) returns (next: seq<Digest>)
    ensures next == NextLevel(h, level)
  {
    next := [];
    var i := 0;
    while i < |level|
      invariant i % 2 == 0 && 0 <= i <= |level| + 1
      invariant next == NextLevel(h, level)[..i / 2]
    {
      var right := if i + 1 < |level| then level[i + 1] else level[i];
      next := next + [Node(h, level[i], right)];
      i := i + 2;
    }
  }

  lemma PathStep(h: HashFn, level: seq<Digest>, index: nat)
    requires index < |level| && |level| > 1
    ensures AuthPath(h, level, index) == [Sibling(level, index)] + AuthPath(h, NextLevel(h, level), index / 2)
  {
  }

  method ComputeAuthPath(h: HashFn, leaves: seq<Digest>, start: nat) returns (path: seq<Digest>)
    requires start < |leaves|
    ensures path == AuthPath(h, leaves, start)
  {
    path := [];
    var level, index: nat := leaves, start;
    while |level| > 1
      invariant index < |level|
      invariant path + AuthPath(h, level, index) == AuthPath(h, leaves, start)
      decreases |level|
    {
      var d := Sibling(level, index);
      PathStep(h, level, index);
      Assoc(path, [d], AuthPath(h, NextLevel(h, level), index / 2));
      path := path + [d];
      level := HashPairs(h, level);
      index := index / 2;
    }
  }

  predicate SigVerifies(h: HashFn, root: Digest, msg: seq<byte>, sig: OtsSig) {
    && L.Verifies(h, sig.otsPub, msg, sig.sig)
    && Fold(h, h(sig.otsPub), sig.index, sig.path) == root
  }

  method VerifySig(h: HashFn, root: Digest, msg: seq<byte>, sig: OtsSig) returns (ok: bool)
    ensures ok <==> SigVerifies(h, root, msg, sig)
  {
    var valid := L.VerifyMessage(h, sig.otsPub, msg, sig.sig);
    if !valid {
      return false;
    }
    var acc: Digest, index: nat := h(sig.otsPub), sig.index;
    for i := 0 to |sig.path|
      invariant Fold(h, acc, index, sig.path[i..]) == Fold(h, h(sig.otsPub), sig.index, sig.path)
    {
      acc := if index % 2 == 0 then Node(h, acc, sig.path[i]) else Node(h, sig.path[i], acc);
      index := index / 2;
    }
    ok := acc == root;
  }

  /** A signer as a value: the one-time keys' leaves, their root, the next unused slot. */
  datatype SignerState = SignerState(master: seq<byte>, leaves: seq<Digest>, root: Digest, next: nat)

  function OtsSeed(master: seq<byte>, index: nat): seq<byte> {
    master + OTS_TAG + LE(index, 8)
  }

  function OtsPublic(h: HashFn, master: seq<byte>, index: nat): seq<byte> {
    L.PublicKey(h, DOMAIN, OtsSeed(master, index))
  }

  ghost predicate WellKeyed(h: HashFn, s: SignerState) {
    && s.root == Root(h, s.leaves)
    && forall i :: 0 <= i < |s.leaves| ==> s.leaves[i] == h(OtsPublic(h, s.master, i))
  }

  function SignAtSlot(h: HashFn, master: seq<byte>, leaves: seq<Digest>, msg: seq<byte>, index: nat): Option<OtsSig> {
    if index >= |leaves| then None else
      Some(OtsSig(index, L.Sign(h, DOMAIN, OtsSeed(master, index), msg),
                  OtsPublic(h, master, index), AuthPath(h, leaves, index)))
  }

  function SignNext(h: HashFn, s: SignerState, msg: seq<byte>): (SignerState, Option<OtsSig>) {
    if s.next >= |s.leaves| then (s, None)
    else (s.(next := s.next + 1), SignAtSlot(h, s.master, s.leaves, msg, s.next))
  }

  /** Every signature a well-keyed signer makes verifies under its published root. */
  lemma SignatureVerifies(h: HashFn, s: SignerState, msg: seq<byte>, index: nat)
    requires WellKeyed(h, s) && index < |s.leaves|
    ensures SigVerifies(h, s.root, msg, SignAtSlot(h, s.master, s.leaves, msg, index).value)
  {
    L.SignVerifies(h, DOMAIN, OtsSeed(s.master, index), msg);
    PathReachesRoot(h, s.leaves, index);
  }

  /** No two secret values of a signer, of one slot or of two, are hashed from the same bytes. */
  lemma SecretsAllDiffer(master: seq<byte>, index: u64, i: nat, bit: byte, index': u64, i': nat, bit': byte)
    requires i < L.BITS && i' < L.BITS
    requires L.SecretInput(DOMAIN, OtsSeed(master, index), i, bit) == L.SecretInput(DOMAIN, OtsSeed(master, index'), i', bit')
    ensures index == index' && i == i' && bit == bit'
  {
    var s, t := OtsSeed(master, index), OtsSeed(master, index');
    L.SecretInputInjective(DOMAIN, s, i, bit, t, i', bit');
    assert s[|s| - 8..] == LE(index, 8) && t[|t| - 8..] == LE(index', 8);
    Widths();
    LEInjective(index, index', 8);
  }

  /** What a signer signed in one slot verifies for no message of another digest, unless a pair of
      that slot's secret values collides. */
  lemma SlotBindsMessage(h: HashFn, s: SignerState, msg: seq<byte>, index: nat, msg': seq<byte>) returns (i: nat)
    requires WellKeyed(h, s) && index < |s.leaves|
    requires SigVerifies(h, s.root, msg', SignAtSlot(h, s.master, s.leaves, msg, index).value)
    ensures h(msg) == h(msg') || L.PairCollides(h, DOMAIN, OtsSeed(s.master, index), i)
  {
    i := L.SignatureBindsMessage(h, DOMAIN, OtsSeed(s.master, index), msg, msg');
  }

  ghost function KeysOf(h: HashFn, s: SignerState): seq<seq<byte>> {
    seq(|s.leaves|, k requires 0 <= k < |s.leaves| => OtsPublic(h, s.master, k))
  }

  /** Whatever verifies under a signer's root, with any index and any path, is the signature that
      signer makes of that message with one of its own one-time keys; or the hash collides on bytes
      in the signature and bytes the signer hashed: on the way up the tree, or on a revealed value. */
  lemma OnlyOwnSignatures(h: HashFn, s: SignerState, msg: seq<byte>, sig: OtsSig)
    returns (i: nat, bit: nat, x: seq<byte>, y: seq<byte>)
    requires WellKeyed(h, s) && s.leaves != [] && SigVerifies(h, s.root, msg, sig)
    ensures || ShownCollides(h, s.leaves, KeysOf(h, s), sig.otsPub, sig.index, sig.path, x, y)
            || (i < |s.leaves| && sig.otsPub == OtsPublic(h, s.master, i)
                && (sig.sig == L.Sign(h, DOMAIN, OtsSeed(s.master, i), msg)
                    || L.ForgedBit(h, DOMAIN, OtsSeed(s.master, i), msg, sig.sig, bit)))
  {
    var keys := KeysOf(h, s);
    bit := 0;
    i, x, y := RootBindsKeys(h, s.leaves, keys, sig.otsPub, sig.index, sig.path);
    if i < |keys| && sig.otsPub == keys[i] {
      bit := L.OnlySecretOpens(h, DOMAIN, OtsSeed(s.master, i), msg, sig.sig);
    }
  }

  /** The answers to a whole run of `sign_next` calls. */
  function SignRun(h: HashFn, s: SignerState, msgs: seq<seq<byte>>): (r: seq<Option<OtsSig>>)
    ensures |r| == |msgs|
    decreases |msgs|
  {
    if msgs == [] then [] else
      var (s', sig) := SignNext(h, s, msgs[0]);
      [sig] + SignRun(h, s', msgs[1..])
  }

  lemma SignRunAt(h: HashFn, s: SignerState, msgs: seq<seq<byte>>, k: nat)
    requires k < |msgs|
    ensures k == 0 ==> SignRun(h, s, msgs)[k] == SignNext(h, s, msgs[0]).1
    ensures k > 0 ==> SignRun(h, s, msgs)[k] == SignRun(h, SignNext(h, s, msgs[0]).0, msgs[1..])[k - 1]
  {
  }

  /** One call: the next slot if there is one, and a signer as well keyed as before. */
  lemma NextSlot(h: HashFn, s: SignerState, msg: seq<byte>)
    requires WellKeyed(h, s)
    ensures var (s', sig) := SignNext(h, s, msg);
      && WellKeyed(h, s') && s'.leaves == s.leaves && s'.root == s.root
      && s'.next == (if s.next < |s.leaves| then s.next + 1 else s.next)
      && (sig.Some? <==> s.next < |s.leaves|)
      && (sig.Some? ==> sig.value.index == s.next && SigVerifies(h, s.root, msg, sig.value))
  {
    if s.next < |s.leaves| {
      SignatureVerifies(h, s, msg, s.next);
    }
  }

  /** Call k of a run uses slot next + k, its signature verifies, and once the slots are used
      up every later call returns None. */
  lemma {:induction false} SlotsUsedOnce(h: HashFn, s: SignerState, msgs: seq<seq<byte>>, k: nat)
    requires WellKeyed(h, s) && k < |msgs|
    ensures SignRun(h, s, msgs)[k].Some? <==> s.next + k < |s.leaves|
    ensures s.next + k < |s.leaves| ==>
      var sig := SignRun(h, s, msgs)[k].value;
      sig.index == s.next + k && SigVerifies(h, s.root, msgs[k], sig)
    decreases k
  {
    SignRunAt(h, s, msgs, k);
    NextSlot(h, s, msgs[0]);
    if k > 0 {
      SlotsUsedOnce(h, SignNext(h, s, msgs[0]).0, msgs[1..], k - 1);
    }
  }

  class Signer {
    const h: HashFn
    const master: seq<byte>
    const leaves: seq<Digest>
    const root: Digest
    var nextSlot: nat

    ghost function Model(): SignerState
      reads this
    {
      SignerState(master, leaves, root, nextSlot)
    }

    constructor (h: HashFn, seed: seq<byte>, height: nat)
      ensures WellKeyed(h, Model()) && this.h == h
      ensures Model().master == seed && |Model().leaves| == Pow2(height) && nextSlot == 0
    {
      var n := Pow2(height);
      var ls: seq<Digest> := [];
      for i := 0 to n
        invariant |ls| == i
        invariant forall j :: 0 <= j < i ==> ls[j] == h(OtsPublic(h, seed, j))
      {
        var _, pk := L.Keygen(h, DOMAIN, OtsSeed(seed, i));
        ls := ls + [h(pk)];
      }
      var r := MerkleRoot(h, ls);
      this.h, master, leaves, root, nextSlot := h, seed, ls, r, 0;
    }

    method SignIndexed(msg: seq<byte>, index: nat) returns (sig: Option<OtsSig>)
      ensures sig == SignAtSlot(h, master, leaves, msg, index)
    {
      if index >= |leaves| {
        return None;
      }
      var sk, pk := L.Keygen(h, DOMAIN, OtsSeed(master, index));
      var s := L.SignMessage(h, DOMAIN, sk, msg);
      var path := ComputeAuthPath(h, leaves, index);
      sig := Some(OtsSig(index, s, pk, path));
    }

    method SignWithNext(msg: seq<byte>) returns (sig: Option<OtsSig>)
      modifies this
      ensures (Model(), sig) == SignNext(h, old(Model()), msg)
    {
      if nextSlot >= |leaves| {
        return None;
      }
      var slot := nextSlot;
      nextSlot := nextSlot + 1;
      sig := SignIndexed(msg, slot);
    }
  }

  // ---------- the shape of the tree ----------

  lemma NextOfBoth(h: HashFn, a: seq<Digest>, b: seq<Digest>)
    requires |a| % 2 == 0
    ensures NextLevel(h, a + b) == NextLevel(h, a) + NextLevel(h, b)
  {
    forall k | 0 <= k < |NextLevel(h, a + b)|
      ensures NextLevel(h, a + b)[k] == (NextLevel(h, a) + NextLevel(h, b))[k]
    {
      NextAt(h, a, b, k);
    }
  }

  lemma NextAt(h: HashFn, a: seq<Digest>, b: seq<Digest>, k: nat)
    requires |a| % 2 == 0 && k < (|a + b| + 1) / 2
    ensures NextLevel(h, a + b)[k] == (NextLevel(h, a) + NextLevel(h, b))[k]
  {
    PairHashes(h, a + b, k);
    PairOfBoth(a, b, k);
    if k < |a| / 2 {
      PairHashes(h, a, k);
    } else {
      PairHashes(h, b, k - |a| / 2);
    }
  }

  lemma PairOfBoth(a: seq<Digest>, b: seq<Digest>, k: nat)
    requires |a| % 2 == 0 && k < (|a + b| + 1) / 2
    ensures k < |a| / 2 ==> Pair(a + b, k) == Pair(a, k)
    ensures k >= |a| / 2 ==> k - |a| / 2 < (|b| + 1) / 2 && Pair(a + b, k) == Pair(b, k - |a| / 2)
  {
  }

  /** The root over two halves of one size, a power of two, is the hash of their roots, left then right. */
  lemma {:induction false} RootOfHalves(h: HashFn, a: seq<Digest>, b: seq<Digest>, k: nat)
    requires |a| == |b| == Pow2(k)
    ensures var l: seq<byte>, r: seq<byte> := Root(h, a), Root(h, b); Root(h, a + b) == h(l + r)
    decreases k
  {
    if k == 0 {
      var l: seq<byte>, r: seq<byte> := a[0], b[0];
      PairHashes(h, a + b, 0);
      assert Pair(a + b, 0) == l + r;
      assert Root(h, a + b) == Root(h, NextLevel(h, a + b)) == NextLevel(h, a + b)[0];
    } else {
      NextOfBoth(h, a, b);
      RootOfHalves(h, NextLevel(h, a), NextLevel(h, b), k - 1);
    }
  }

  /** The root over nothing is zero, and over one leaf that leaf. */
  lemma SmallestTrees(h: HashFn, d: Digest)
    ensures Root(h, []) == ZeroDigest() && Root(h, [d]) == d
  {
  }

  /** A leaf without a neighbour is hashed with itself. */
  lemma LoneLeaf(h: HashFn, a: seq<Digest>, d: Digest)
    requires |a| % 2 == 0
    ensures var x: seq<byte> := d; NextLevel(h, a + [d]) == NextLevel(h, a) + [h(x + x)]
  {
    NextOfBoth(h, a, [d]);
    PairHashes(h, [d], 0);
    var x: seq<byte> := d;
    assert Pair([d], 0) == x + x;
  }

  /** The seed of a slot: the master seed, the tag, the index. */
  lemma OtsSeedLayout(master: seq<byte>, index: nat)
    ensures var s, n := OtsSeed(master, index), |master|;
      |s| == n + 17 && s[..n] == master && s[n..n + 9] == OTS_TAG && s[n + 9..] == LE(index, 8)
  {
  }
}
