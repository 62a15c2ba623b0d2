/** ChaCha20-Poly1305 (section 2.8 of RFC 8439) as `chacha.rs` composes it. The ChaCha20 block
    function is a parameter; the authenticator is the streaming object of `Poly1305Mac`. */
module Aead {
  import opened Bytes
  import opened Bits
  import opened Poly1305Tag
  import opened Poly1305Mac

  type Key256 = k: seq<byte> | |k| == 32 witness seq(32, _ => 0)
  type Nonce = n: seq<byte> | |n| == 12 witness seq(12, _ => 0)
  type Block64 = b: seq<byte> | |b| == 64 witness seq(64, _ => 0)

  /** `chacha20_block`: 64 bytes of keystream for a key, a block counter and a nonce. */
  type BlockFn = (Key256, u32, Nonce) -> Block64

  // ---------- the standard ----------

  function XorByte(a: byte, b: byte): byte {
    assert Pow2(8) == 256;
    XorBound(a, b, 8);
    Xor(a, b)
  }

  function Counter(start: u32, i: nat): u32 { (start + i) % 0x1_0000_0000 }

  /** The keystream byte at position i. */
  function Pad(f: BlockFn, key: Key256, start: u32, nonce: Nonce, i: nat): byte {
    f(key, Counter(start, i / 64), nonce)[i % 64]
  }

  function XorStream(f: BlockFn, key: Key256, start: u32, nonce: Nonce, data: seq<byte>): (out: seq<byte>)
    ensures |out| == |data|
  {
    seq(|data|, i requires 0 <= i < |data| => XorByte(data[i], Pad(f, key, start, nonce, i)))
  }

  function Pad16(n: nat): nat { (16 - n % 16) % 16 }

  /** What the tag covers. */
  function MacData(aad: seq<byte>, ct: seq<byte>): seq<byte> {
    aad + Zeros(Pad16(|aad|)) + ct + Zeros(Pad16(|ct|)) + (LE(|aad|, 8) + LE(|ct|, 8))
  }

  function OneTimeKey(f: BlockFn, key: Key256, nonce: Nonce): (otk: seq<byte>)
    ensures |otk| == 32
  {
    f(key, 0, nonce)[..32]
  }

  function Encrypt(f: BlockFn, key: Key256, nonce: Nonce, aad: seq<byte>, pt: seq<byte>)
    : (seq<byte>, seq<byte>)
  {
    var ct := XorStream(f, key, 1, nonce, pt);
    (ct, Tag(OneTimeKey(f, key, nonce), MacData(aad, ct)))
  }

  function Decrypt(f: BlockFn, key: Key256, nonce: Nonce, aad: seq<byte>, ct: seq<byte>, tag: seq<byte>)
    : Option<seq<byte>>
  {
    if Tag(OneTimeKey(f, key, nonce), MacData(aad, ct)) == tag then Some(XorStream(f, key, 1, nonce, ct)) else None
  }

  /** The keystream cancels itself. */
  lemma XorStreamTwice(f: BlockFn, key: Key256, start: u32, nonce: Nonce, data: seq<byte>)
    ensures XorStream(f, key, start, nonce, XorStream(f, key, start, nonce, data)) == data
  {
    var once := XorStream(f, key, start, nonce, data);
    var twice := XorStream(f, key, start, nonce, once);
    forall i | 0 <= i < |data|
      ensures twice[i] == data[i]
    {
      XorTwice(data[i], Pad(f, key, start, nonce, i));
    }
  }

  /** Decryption undoes encryption, for every plaintext. */
  lemma RoundTrip(f: BlockFn, key: Key256, nonce: Nonce, aad: seq<byte>, pt: seq<byte>)
    ensures var (ct, tag) := Encrypt(f, key, nonce, aad, pt); Decrypt(f, key, nonce, aad, ct, tag) == Some(pt)
  {
    XorStreamTwice(f, key, 1, nonce, pt);
  }

  /** Decryption accepts exactly the pairs encryption produces. */
  lemma AcceptsOnlyEncryptions(
      f: BlockFn, key: Key256, nonce: Nonce, aad: seq<byte>, ct: seq<byte>, tag: seq<byte>)
    ensures Decrypt(f, key, nonce, aad, ct, tag).Some?
       <==> exists pt :: Encrypt(f, key, nonce, aad, pt) == (ct, tag)
    ensures Decrypt(f, key, nonce, aad, ct, tag).Some? ==>
              Encrypt(f, key, nonce, aad, Decrypt(f, key, nonce, aad, ct, tag).value) == (ct, tag)
  {
    XorStreamTwice(f, key, 1, nonce, ct);
    if Decrypt(f, key, nonce, aad, ct, tag).Some? {
      var pt := XorStream(f, key, 1, nonce, ct);
      assert Encrypt(f, key, nonce, aad, pt) == (ct, tag);
    }
    if pt :| Encrypt(f, key, nonce, aad, pt) == (ct, tag) {
      RoundTrip(f, key, nonce, aad, pt);
    }
  }

  /** Padding and lengths make the authenticated data unambiguous. */
  lemma MacDataInjective(a: seq<byte>, c: seq<byte>, a': seq<byte>, c': seq<byte>)
    requires |a| < 0x1_0000_0000_0000_0000 && |c| < 0x1_0000_0000_0000_0000
    requires |a'| < 0x1_0000_0000_0000_0000 && |c'| < 0x1_0000_0000_0000_0000
    requires MacData(a, c) == MacData(a', c')
    ensures a == a' && c == c'
  {
    Widths();
    var m, m' := MacData(a, c), MacData(a', c');
    var n := |m|;
    assert m[n - 16..n - 8] == LE(|a|, 8) && m[n - 8..] == LE(|c|, 8);
    assert m'[n - 16..n - 8] == LE(|a'|, 8) && m'[n - 8..] == LE(|c'|, 8);
    LEInjective(|a|, |a'|, 8);
    LEInjective(|c|, |c'|, 8);
    var k := |a| + Pad16(|a|);
    assert m[..|a|] == a && m'[..|a|] == a';
    assert m[k..k + |c|] == c && m'[k..k + |c|] == c';
  }

  // ---------- which keystream goes where ----------

  /** The most bytes that the block counter numbers without coming back to block 0. */
  const MAX_BYTES: nat := 0xffff_ffff * 64

  /** Byte i of the ciphertext is byte i of the plaintext under byte i % 64 of block 1 + i / 64. */
  lemma CipherByte(f: BlockFn, key: Key256, nonce: Nonce, aad: seq<byte>, pt: seq<byte>, i: nat)
    requires i < |pt| && i < MAX_BYTES
    ensures |Encrypt(f, key, nonce, aad, pt).0| == |pt|
    ensures Encrypt(f, key, nonce, aad, pt).0[i] == XorByte(pt[i], f(key, 1 + i / 64, nonce)[i % 64])
  {
    assert Counter(1, i / 64) == 1 + i / 64;
  }

  /** The tag is the authenticator's, keyed with the first half of block 0 and nothing else. */
  lemma TagUsesBlockZero(f: BlockFn, key: Key256, nonce: Nonce, aad: seq<byte>, pt: seq<byte>)
    ensures var (ct, tag) := Encrypt(f, key, nonce, aad, pt); tag == Tag(f(key, 0, nonce)[..32], MacData(aad, ct))
  {
  }

  /** Two block functions with the same first half of block 0 seal the same ciphertext alike, and
      open it or refuse it alike, whatever their other blocks are. */
  lemma TagDependsOnKeyBlock(f: BlockFn, g: BlockFn, key: Key256, nonce: Nonce, aad: seq<byte>,
                             pt: seq<byte>, pt': seq<byte>, ct: seq<byte>, tag: seq<byte>)
    requires f(key, 0, nonce)[..32] == g(key, 0, nonce)[..32]
    ensures Encrypt(f, key, nonce, aad, pt).0 == Encrypt(g, key, nonce, aad, pt').0 ==>
              Encrypt(f, key, nonce, aad, pt).1 == Encrypt(g, key, nonce, aad, pt').1
    ensures Decrypt(f, key, nonce, aad, ct, tag).Some? <==> Decrypt(g, key, nonce, aad, ct, tag).Some?
  {
  }

  /** Two block functions that differ in block 0 only encrypt and decrypt alike: the key of the
      authenticator is never used as keystream. */
  lemma KeyBlockIsNotKeystream(f: BlockFn, g: BlockFn, key: Key256, nonce: Nonce, aad: seq<byte>, pt: seq<byte>)
    requires |pt| <= MAX_BYTES && forall c: u32 :: c != 0 ==> f(key, c, nonce) == g(key, c, nonce)
    ensures Encrypt(f, key, nonce, aad, pt).0 == Encrypt(g, key, nonce, aad, pt).0
  {
    var a, b := Encrypt(f, key, nonce, aad, pt).0, Encrypt(g, key, nonce, aad, pt).0;
    forall i | 0 <= i < |pt|
      ensures a[i] == b[i]
    {
      CipherByte(f, key, nonce, aad, pt, i);
      CipherByte(g, key, nonce, aad, pt, i);
    }
  }

  /** Where everything stands in the authenticated data: the two texts at multiples of 16, zeros after
      each, then their lengths in 64 bits, that of the additional data first. */
  lemma MacDataLayout(aad: seq<byte>, ct: seq<byte>)
    ensures var m, k := MacData(aad, ct), (|aad| + 15) / 16 * 16;
      && |m| == k + (|ct| + 15) / 16 * 16 + 16
      && m[..|aad|] == aad && m[k..k + |ct|] == ct
      && (forall i :: |aad| <= i < k || k + |ct| <= i < |m| - 16 ==> m[i] == 0)
      && m[|m| - 16..|m| - 8] == LE(|aad|, 8) && m[|m| - 8..] == LE(|ct|, 8)
  {
    Rounded(|aad|);
    Rounded(|ct|);
  }

  lemma Rounded(n: nat)
    ensures n + Pad16(n) == (n + 15) / 16 * 16
  {
  }

  // ---------- the code ----------

  /** `ct_eq16`: no early exit. */
  method EqualTags(a: seq<byte>, b: seq<byte>) returns (same: bool)
    requires |a| == 16 && |b| == 16
    ensures same <==> a == b
  {
    var diff := 0;
    for i := 0 to 16
      invariant diff == 0 <==> a[..i] == b[..i]
    {
      XorZero(a[i], b[i]);
      OrZero(diff, Xor(a[i], b[i]));
      diff := Or(diff, Xor(a[i], b[i]));
      assert a[..i + 1] == a[..i] + [a[i]] && b[..i + 1] == b[..i] + [b[i]];
    }
    assert a[..16] == a && b[..16] == b;
    same := diff == 0;
  }

  /** Encrypts in place the 64-byte chunk that starts at `from`. */
  method XorChunk(f: BlockFn, key: Key256, start: u32, nonce: Nonce, out: array<byte>, from: nat, to: nat)
    requires from % 64 == 0 && from < to <= out.Length && to <= from + 64
    modifies out
    ensures forall i :: 0 <= i < out.Length && !(from <= i < to) ==> out[i] == old(out[i])
    ensures forall i :: from <= i < to ==> out[i] == XorByte(old(out[i]), Pad(f, key, start, nonce, i))
  {
    var ks := f(key, Counter(start, from / 64), nonce);
    var j := 0;
    while j < to - from
      invariant j <= to - from
      invariant forall i :: 0 <= i < out.Length && !(from <= i < from + j) ==> out[i] == old(out[i])
      invariant forall i :: from <= i < from + j ==> out[i] == XorByte(old(out[i]), Pad(f, key, start, nonce, i))
    {
      assert (from + j) / 64 == from / 64 && (from + j) % 64 == j;
      out[from + j] := XorByte(out[from + j], ks[j]);
      j := j + 1;
    }
  }

  /** `chacha20_xor`. */
  method Chacha20Xor(f: BlockFn, key: Key256, start: u32, nonce: Nonce, data: seq<byte>)
    returns (r: seq<byte>)
    ensures r == XorStream(f, key, start, nonce, data)
  {
    var out := new byte[|data|](i requires 0 <= i < |data| => data[i]);
    var from := 0;
    while from < |data|
      invariant from % 64 == 0 || from == |data|
      invariant from <= |data|
      invariant forall i :: 0 <= i < from ==> out[i] == XorByte(data[i], Pad(f, key, start, nonce, i))
      invariant forall i :: from <= i < |data| ==> out[i] == data[i]
    {
      var to := Min(from + 64, |data|);
      XorChunk(f, key, start, nonce, out, from, to);
      from := to;
    }
    r := out[..];
  }

  /** `finish_mac`, with the prologue both directions share. */
  method StartMac(f: BlockFn, key: Key256, nonce: Nonce, aad: seq<byte>) returns (poly: Mac)
    ensures fresh(poly) && fresh(poly.buffer) && poly.Valid()
    ensures poly.rv == ClampedR(OneTimeKey(f, key, nonce)) && poly.sv == FromLE(OneTimeKey(f, key, nonce)[16..])
    ensures poly.Message() == aad + Zeros(Pad16(|aad|))
  {
    poly := new Mac(f(key, 0, nonce)[..32]);
    poly.Update(aad);
    poly.Update(Zeros(Pad16(|aad|)));
  }

  method FinishMac(poly: Mac, aadLen: nat, ctLen: nat, ghost data: seq<byte>) returns (tag: seq<byte>)
    requires poly.Valid() && poly.Message() == data
    modifies poly, poly.buffer
    ensures tag == TagOf(poly.rv, poly.sv, data + Zeros(Pad16(ctLen)) + (LE(aadLen, 8) + LE(ctLen, 8)))
  {
    poly.Update(Zeros(Pad16(ctLen)));
    poly.Update(LE(aadLen, 8) + LE(ctLen, 8));
    tag := poly.Finalize();
  }

  /** The fused loop: each chunk is absorbed as soon as it is encrypted. */
  method EncryptAndAbsorb(f: BlockFn, key: Key256, nonce: Nonce, poly: Mac, pt: seq<byte>)
    returns (ct: seq<byte>)
    requires poly.Synced()
    modifies poly, poly.buffer
    ensures ct == XorStream(f, key, 1, nonce, pt)
    ensures poly.Synced() && poly.Message() == old(poly.Message()) + ct
  {
    var out := new byte[|pt|](i requires 0 <= i < |pt| => pt[i]);
    var from := 0;
    while from < |pt|
      invariant from % 64 == 0 || from == |pt|
      invariant from <= |pt|
      invariant forall i :: 0 <= i < from ==> out[i] == XorByte(pt[i], Pad(f, key, 1, nonce, i))
      invariant forall i :: from <= i < |pt| ==> out[i] == pt[i]
      invariant poly.Synced() && poly.Message() == old(poly.Message()) + out[..from]
    {
      var to := Min(from + 64, |pt|);
      ghost var before := out[..from];
      XorChunk(f, key, 1, nonce, out, from, to);
      assert out[..from] == before && out[..to] == out[..from] + out[from..to];
      Assoc(old(poly.Message()), out[..from], out[from..to]);
      poly.Update(out[from..to]);
      from := to;
    }
    ct := out[..];
    assert out[..from] == ct;
  }

  /** `aead_encrypt`. */
  method AeadEncrypt(f: BlockFn, key: Key256, nonce: Nonce, aad: seq<byte>, pt: seq<byte>)
    returns (ct: seq<byte>, tag: seq<byte>)
    ensures (ct, tag) == Encrypt(f, key, nonce, aad, pt)
  {
    var poly := StartMac(f, key, nonce, aad);
    ct := EncryptAndAbsorb(f, key, nonce, poly, pt);
    tag := FinishMac(poly, |aad|, |ct|, aad + Zeros(Pad16(|aad|)) + ct);
  }

  /** `aead_decrypt`: the tag is checked before any plaintext is released. */
  method AeadDecrypt(f: BlockFn, key: Key256, nonce: Nonce, aad: seq<byte>, ct: seq<byte>, tag: seq<byte>)
    returns (r: Option<seq<byte>>)
    requires |tag| == 16
    ensures r == Decrypt(f, key, nonce, aad, ct, tag)
  {
    var poly := StartMac(f, key, nonce, aad);
    poly.Update(ct);
    var expected := FinishMac(poly, |aad|, |ct|, aad + Zeros(Pad16(|aad|)) + ct);
    var same := EqualTags(expected, tag);
    if !same {
      return None;
    }
    var pt := Chacha20Xor(f, key, 1, nonce, ct);
    r := Some(pt);
  }
}
