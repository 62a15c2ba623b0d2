/** Bytes, digests and fixed-width little-endian integers: the vocabulary shared by the
    codecs, the signatures and the hash chains. SHA-256 is a parameter everywhere
    (`HashFn`). No hash into 32 bytes is injective, so nothing assumes that: a result that
    rests on the hash says which strings must not collide, or yields the collision. */
module Bytes {
  import opened Arith

  type byte = x: int | 0 <= x < 0x100
  type u32 = x: int | 0 <= x < 0x1_0000_0000
  type u64 = x: int | 0 <= x < 0x1_0000_0000_0000_0000

  const DIGEST_LEN: nat := 32

  function ZeroDigest(): Digest { seq(DIGEST_LEN, _ => 0) }

  /** `Hash256`: exactly 32 bytes. */
  type Digest = d: seq<byte> | |d| == DIGEST_LEN witness seq(DIGEST_LEN, _ => 0)

  /** `Hash256::of`. */
  type HashFn = seq<byte> -> Digest

  /** Two different strings with one digest. */
  predicate Collide(h: HashFn, a: seq<byte>, b: seq<byte>) {
    a != b && h(a) == h(b)
  }

  /** A set of byte strings, such as those a system ever hashes. */
  type Corpus = iset<seq<byte>>

  /** No two of these strings collide. */
  ghost predicate CollisionFree(h: HashFn, w: Corpus) {
    forall a, b :: a in w && b in w ==> !Collide(h, a, b)
  }

  /** The bytes of an ASCII string. */
  predicate Spells(b: seq<byte>, s: string) {
    |b| == |s| && forall i :: 0 <= i < |b| ==> b[i] == s[i] as int
  }

  datatype Option<+T> = None | Some(value: T) {
    predicate IsFailure() { None? }

    function PropagateFailure<U>(): Option<U>
      requires None?
    {
      None
    }

    function Extract(): T
      requires Some?
    {
      value
    }
  }

  datatype Result<+T, +E> = Ok(value: T) | Err(error: E)

  function Pow256(k: nat): (r: nat)
    ensures r >= 1
  {
    if k == 0 then 1 else 256 * Pow256(k - 1)
  }

  /** The `k` low bytes of `n`, least significant first (`to_le_bytes`). */
  function LE(n: nat, k: nat): (s: seq<byte>)
    ensures |s| == k
  {
    seq(k, i requires 0 <= i < k => n / Pow256(i) % 256)
  }

  /** `from_le_bytes`. */
  function FromLE(s: seq<byte>): nat {
    if s == [] then 0 else s[0] + 256 * FromLE(s[1..])
  }

  lemma LEStep(n: nat, k: nat)
    requires k > 0
    ensures LE(n, k)[0] == n % 256 && LE(n, k)[1..] == LE(n / 256, k - 1)
  {
    forall i | 0 <= i < k - 1
      ensures n / Pow256(i + 1) == n / 256 / Pow256(i)
    {
      DivDiv(n, 256, Pow256(i));
    }
  }

  lemma SplitHead(n: nat, k: nat)
    requires k > 0
    ensures LE(n, k) == [n % 256] + LE(n / 256, k - 1)
  {
    LEStep(n, k);
    var t := LE(n, k);
    assert t == [t[0]] + t[1..];
  }

  lemma {:induction false} FromLEBound(s: seq<byte>)
    ensures FromLE(s) < Pow256(|s|)
  {
    if s != [] {
      FromLEBound(s[1..]);
    }
  }

  /** Encoding then decoding gives back every integer that fits the width. */
  lemma {:induction false} LERoundTrip(n: nat, k: nat)
    requires n < Pow256(k)
    ensures FromLE(LE(n, k)) == n
    decreases k
  {
    if k > 0 {
      LEStep(n, k);
      LERoundTrip(n / 256, k - 1);
    }
  }

  /** Decoding then encoding gives back every byte string. */
  lemma {:induction false} FromLERoundTrip(s: seq<byte>)
    ensures LE(FromLE(s), |s|) == s
  {
    if s != [] {
      var n, rest := FromLE(s), s[1..];
      DivUnique(n, 256, FromLE(rest), s[0]);
      FromLERoundTrip(rest);
      SplitHead(n, |s|);
      assert s == [s[0]] + rest;
    }
  }

  lemma LEInjective(a: nat, b: nat, k: nat)
    requires a < Pow256(k) && b < Pow256(k) && LE(a, k) == LE(b, k)
    ensures a == b
  {
    LERoundTrip(a, k);
    LERoundTrip(b, k);
  }

  lemma Widths()
    ensures Pow256(0) == 1 && Pow256(1) == 0x100 && Pow256(2) == 0x1_0000 && Pow256(3) == 0x100_0000
    ensures Pow256(4) == 0x1_0000_0000 && Pow256(8) == 0x1_0000_0000_0000_0000
  {
    assert Pow256(5) == 0x100_0000_0000;
    assert Pow256(6) == 0x1_0000_0000_0000 && Pow256(7) == 0x100_0000_0000_0000;
  }

  function DecodeU32(s: seq<byte>): u32
    requires |s| == 4
  {
    s[0] + 0x100 * (s[1] as int) + 0x1_0000 * (s[2] as int) + 0x100_0000 * (s[3] as int)
  }

  function DecodeU64(s: seq<byte>): u64
    requires |s| == 8
  {
    DecodeU32(s[..4]) + 0x1_0000_0000 * DecodeU32(s[4..])
  }

  lemma DecodeU32IsFromLE(s: seq<byte>)
    requires |s| == 4
    ensures DecodeU32(s) == FromLE(s)
  {
    assert s[1..][1..] == s[2..] && s[2..][1..] == s[3..] && s[3..][1..] == [];
    assert FromLE(s[3..]) == s[3];
    assert FromLE(s[2..]) == s[2] + 256 * FromLE(s[3..]);
    assert FromLE(s[1..]) == s[1] + 256 * FromLE(s[2..]);
  }

  lemma {:induction false} FromLEJoin(a: seq<byte>, b: seq<byte>)
    ensures FromLE(a + b) == FromLE(a) + Pow256(|a|) * FromLE(b)
    decreases |a|
  {
    if a == [] {
      assert a + b == b;
    } else {
      assert (a + b)[1..] == a[1..] + b;
      FromLEJoin(a[1..], b);
    }
  }

  lemma DecodeU64IsFromLE(s: seq<byte>)
    requires |s| == 8
    ensures DecodeU64(s) == FromLE(s)
  {
    Widths();
    DecodeU32IsFromLE(s[..4]);
    DecodeU32IsFromLE(s[4..]);
    FromLEJoin(s[..4], s[4..]);
    assert s == s[..4] + s[4..];
  }

  lemma U32RoundTrip(n: u32)
    ensures DecodeU32(LE(n, 4)) == n
  {
    Widths();
    DecodeU32IsFromLE(LE(n, 4));
    LERoundTrip(n, 4);
  }

  lemma U64RoundTrip(n: u64)
    ensures DecodeU64(LE(n, 8)) == n
  {
    Widths();
    var lo, hi := n % 0x1_0000_0000, n / 0x1_0000_0000;
    var s := LE(n, 8);
    LEStep(n, 8);
    LEStep(n / 256, 7);
    LEStep(n / 256 / 256, 6);
    LEStep(n / 256 / 256 / 256, 5);
    assert s[4..] == s[1..][1..][1..][1..];
    DivDiv(n, 256, 256);
    DivDiv(n, 0x1_0000, 256);
    DivDiv(n, 0x100_0000, 256);
    assert s[4..] == LE(hi, 4);
    U32RoundTrip(hi);
    LERoundTrip(n, 8);
    assert s[1] == s[1..][0] && s[2] == s[1..][1..][0] && s[3] == s[1..][1..][1..][0];
    assert DecodeU32(s[..4]) == lo;
  }

  lemma SliceLeft<T>(a: seq<T>, b: seq<T>, i: nat, j: nat)
    requires i <= j <= |a|
    ensures (a + b)[i..j] == a[i..j]
  {
  }

  lemma SliceRight<T>(a: seq<T>, b: seq<T>, i: nat, j: nat)
    requires i <= j <= |b|
    ensures (a + b)[|a| + i..|a| + j] == b[i..j]
  {
  }

  lemma Assoc<T>(a: seq<T>, b: seq<T>, c: seq<T>)
    ensures a + (b + c) == a + b + c
  {
  }

  function Min(a: int, b: int): int { if a <= b then a else b }
  function Max(a: int, b: int): int { if a >= b then a else b }
}
