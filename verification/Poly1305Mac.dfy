/** The streaming authenticator of `chacha.rs`: whatever chunks it is fed, its state depends
    only on their concatenation, and its tag is the one section 2.5 of RFC 8439 defines. */
module Poly1305Mac {
  import opened Bytes
  import opened Poly1305
  import opened Poly1305Tag

  function Zeros(n: nat): seq<byte> { seq(n, _ => 0) }

  /** What `Poly1305::new` derives from the one-time key. */
  datatype Key = Key(r: Limbs, rs: Fold, pad: Quad)

  function KeyOf(otk: seq<byte>): Key
    requires |otk| == 32
  {
    Key(KeyLimbs(otk), FoldOf(KeyLimbs(otk)), PadWords(otk))
  }

  /** A partial last block, marked with a 1 and filled with zeros. */
  function Padded(rest: seq<byte>): (b: seq<byte>)
    requires |rest| < 16
    ensures |b| == 16
  {
    rest + [1] + Zeros(15 - |rest|)
  }

  lemma Pow256Sixteen()
    ensures Pow256(16) == TWO_TO_128
  {
    Widths();
    assert Pow256(10) == 0x1_0000_0000_0000_0000_0000;
    assert Pow256(12) == 0x1_0000_0000_0000_0000_0000_0000;
    assert Pow256(14) == 0x1_0000_0000_0000_0000_0000_0000_0000;
  }

  lemma FullBlockValue(b: seq<byte>)
    requires |b| == 16
    ensures BlockValue(b) == FromLE(b) + TWO_TO_128
  {
    FromLESplit(b, [1]);
    Pow256Sixteen();
    assert FromLE([1]) == 1 + 256 * FromLE([]);
  }

  /** Trailing zero bytes do not change the value. */
  lemma {:induction false} TrailingZeros(a: seq<byte>, n: nat)
    ensures FromLE(a + Zeros(n)) == FromLE(a)
    decreases |a| + n
  {
    var s := a + Zeros(n);
    if a != [] {
      TrailingZeros(a[1..], n);
      assert s[1..] == a[1..] + Zeros(n);
    } else if n > 0 {
      TrailingZeros([], n - 1);
      assert s[1..] == [] + Zeros(n - 1);
    }
  }

  lemma PaddedValue(rest: seq<byte>)
    requires |rest| < 16
    ensures FromLE(Padded(rest)) == BlockValue(rest)
  {
    TrailingZeros(rest + [1], 15 - |rest|);
  }

  lemma AccumulateBlock(r: nat, done: seq<byte>, block: seq<byte>)
    requires |done| % 16 == 0 && 0 < |block| <= 16
    ensures Accumulate(r, done + block) == ModP(Times(Accumulate(r, done) + BlockValue(block), r))
  {
    var msg := done + block;
    assert LastStart(|msg|) == |done| && msg[..|done|] == done && msg[|done|..] == block;
  }

  function PadWords(key: seq<byte>): Quad
    requires |key| == 32
  {
    Quad(Word(key, 16), Word(key, 20), Word(key, 24), Word(key, 28))
  }

  lemma PadWordsExact(key: seq<byte>)
    requires |key| == 32
    ensures QuadVal(PadWords(key)) == FromLE(key[16..])
  {
    var s := key[16..];
    assert s[0..4] == key[16..20] && s[4..8] == key[20..24] && s[8..12] == key[24..28] && s[12..16] == key[28..32];
    WordsAreBytes(s);
  }

  /** `k` was derived from a one-time key with this r and this s. */
  ghost predicate Keyed(k: Key, rv: nat, sv: nat) {
    Under26(k.r) && Val(k.r) == rv && k.rs == FoldOf(k.r) && QuadVal(k.pad) == sv
  }

  lemma KeyOfExact(otk: seq<byte>)
    requires |otk| == 32
    ensures Keyed(KeyOf(otk), ClampedR(otk), FromLE(otk[16..]))
  {
    KeyLimbsExact(otk);
    PadWordsExact(otk);
  }

  // ---------- the state after whole blocks ----------

  function Front(s: seq<byte>): seq<byte>
    requires |s| >= 16
  {
    s[..|s| - 16]
  }

  function Last(s: seq<byte>): (b: seq<byte>)
    requires |s| >= 16
    ensures |b| == 16
  {
    s[|s| - 16..]
  }

  /** The limbs after a whole number of blocks. Said in three steps, so that the definition
      unfolds only where `AbsorbedLastBlock` asks for it. */
  function Absorbed(k: Key, done: seq<byte>): Limbs
    requires |done| % 16 == 0
    decreases |done|, 2
  {
    AbsorbedBlocks(k, done)
  }

  function AbsorbedBlocks(k: Key, done: seq<byte>): Limbs
    requires |done| % 16 == 0
    decreases |done|, 1
  {
    if done == [] then Limbs(0, 0, 0, 0, 0) else AbsorbedLast(k, done)
  }

  function AbsorbedLast(k: Key, done: seq<byte>): Limbs
    requires |done| % 16 == 0 && done != []
    decreases |done|, 0
  {
    Absorb(k.r, k.rs, Absorbed(k, Front(done)), Last(done), 0x100_0000)
  }

  lemma AbsorbedNothing(k: Key)
    ensures Absorbed(k, []) == Limbs(0, 0, 0, 0, 0)
  {
    assert Absorbed(k, []) == AbsorbedBlocks(k, []);
  }

  lemma AbsorbedLastBlock(k: Key, all: seq<byte>, h: Limbs, block: seq<byte>)
    requires |all| % 16 == 0 && all != [] && h == Absorbed(k, Front(all)) && block == Last(all)
    ensures Absorbed(k, all) == Absorb(k.r, k.rs, h, block, 0x100_0000)
  {
    assert Absorbed(k, all) == AbsorbedBlocks(k, all) == AbsorbedLast(k, all);
  }

  lemma FrontAndLast(done: seq<byte>, block: seq<byte>)
    requires |block| == 16
    ensures Front(done + block) == done && Last(done + block) == block
  {
  }

  lemma AbsorbedBlock(k: Key, h: Limbs, done: seq<byte>, block: seq<byte>)
    requires |done| % 16 == 0 && |block| == 16 && h == Absorbed(k, done)
    ensures Absorbed(k, done + block) == Absorb(k.r, k.rs, h, block, 0x100_0000)
  {
    FrontAndLast(done, block);
    AbsorbedLastBlock(k, done + block, h, block);
  }

  lemma AbsorbedStep(k: Key, rv: nat, sv: nat, done: seq<byte>, block: seq<byte>, acc: nat, t: nat)
    requires Keyed(k, rv, sv) && |done| % 16 == 0 && |block| == 16
    requires Stands(Absorbed(k, done), acc) && t == ModP(Times(acc + BlockValue(block), rv))
    ensures Stands(Absorbed(k, done + block), t)
  {
    FullBlockValue(block);
    AbsorbExact(k.r, rv, Absorbed(k, done), acc, block, 1, BlockValue(block));
    AbsorbedBlock(k, Absorbed(k, done), done, block);
  }

  /** The limbs stand for the accumulator of the standard. */
  lemma {:induction false} AbsorbedExact(k: Key, rv: nat, sv: nat, done: seq<byte>)
    requires Keyed(k, rv, sv) && |done| % 16 == 0
    ensures Stands(Absorbed(k, done), Accumulate(rv, done))
    decreases |done|
  {
    if done == [] {
      AbsorbedNothing(k);
    } else {
      var front, last := Front(done), Last(done);
      AbsorbedExact(k, rv, sv, front);
      AccumulateBlock(rv, front, last);
      AbsorbedStep(k, rv, sv, front, last, Accumulate(rv, front), Accumulate(rv, front + last));
      assert done == front + last;
    }
  }

  /** The partial block `finalize` absorbs, if there is one. */
  method AbsorbRest(k: Key, h: Limbs, rest: seq<byte>, ghost rv: nat, ghost sv: nat, ghost done: seq<byte>)
    returns (g: Limbs)
    requires Keyed(k, rv, sv) && Stands(h, Accumulate(rv, done)) && |done| % 16 == 0 && |rest| < 16
    ensures Stands(g, Accumulate(rv, done + rest))
  {
    if rest == [] {
      assert done + rest == done;
      return h;
    }
    PaddedValue(rest);
    AbsorbExact(k.r, rv, h, Accumulate(rv, done), Padded(rest), 0, BlockValue(rest));
    AccumulateBlock(rv, done, rest);
    g := Absorb(k.r, k.rs, h, Padded(rest), 0);
  }

  // ---------- the streaming object ----------

  class Mac {
    const key: Key
    var h: Limbs
    const buffer: array<byte>
    var leftover: nat
    /** The two halves of the one-time key, and the whole blocks fed so far. */
    ghost const rv: nat
    ghost const sv: nat
    ghost var done: seq<byte>

    /** The limbs hold the whole blocks, the buffer what follows them. */
    ghost predicate Synced()
      reads this
    {
      buffer.Length == 16 && leftover < 16 && |done| % 16 == 0 && h == Absorbed(key, done)
    }

    ghost predicate Valid()
      reads this
    {
      Synced() && Keyed(key, rv, sv)
    }

    /** Everything fed so far. */
    ghost function Message(): seq<byte>
      requires Synced()
      reads this, buffer
    {
      done + buffer[..leftover]
    }

    constructor (otk: seq<byte>)
      requires |otk| == 32
      ensures Valid() && rv == ClampedR(otk) && sv == FromLE(otk[16..]) && Message() == [] && fresh(buffer)
    {
      key := KeyOf(otk);
      h := Limbs(0, 0, 0, 0, 0);
      buffer := new byte[16](_ => 0);
      leftover := 0;
      rv, sv, done := ClampedR(otk), FromLE(otk[16..]), [];
      KeyOfExact(otk);
      AbsorbedNothing(KeyOf(otk));
    }

    method Block(block: seq<byte>)
      requires |block| == 16 && |done| % 16 == 0 && h == Absorbed(key, done)
      modifies this`h, this`done
      ensures done == old(done) + block && h == Absorbed(key, done)
    {
      AbsorbedBlock(key, h, done, block);
      h := Absorb(key.r, key.rs, h, block, 0x100_0000);
      done := done + block;
    }

    /** Copies `data` into the buffer behind what it already holds. */
    method Fill(data: seq<byte>)
      requires buffer.Length == 16 && leftover + |data| <= 16
      modifies buffer, this`leftover
      ensures leftover == old(leftover) + |data|
      ensures buffer[..leftover] == old(buffer[..leftover]) + data
    {
      var i, start := 0, leftover;
      while i < |data|
        invariant i <= |data| && leftover == start
        invariant buffer[..start] == old(buffer[..start])
        invariant buffer[start..start + i] == data[..i]
      {
        buffer[start + i] := data[i];
        i := i + 1;
      }
      leftover := leftover + |data|;
      assert buffer[..leftover] == buffer[..start] + buffer[start..leftover];
    }

    /** The message grows by exactly `data`, so only the concatenation of the chunks matters. */
    method Update(data: seq<byte>)
      requires Synced()
      modifies this`h, this`done, this`leftover, buffer
      ensures Synced() && Message() == old(Message()) + data
    {
      var rest := data;
      if leftover > 0 {
        var take := Min(16 - leftover, |rest|);
        Fill(rest[..take]);
        rest := rest[take..];
        assert done + buffer[..leftover] + rest == old(Message()) + data;
        if leftover < 16 {
          return;
        }
        assert buffer[..] == buffer[..leftover];
        Block(buffer[..]);
        leftover := 0;
      }
      assert done + rest == old(Message()) + data;
      UpdateAligned(rest);
    }

    /** With the buffer empty: the whole blocks, then the remainder into the buffer. */
    method UpdateAligned(data: seq<byte>)
      requires Synced() && leftover == 0
      modifies this`h, this`done, this`leftover, buffer
      ensures Synced() && Message() == old(done) + data
    {
      var n, i := |data| / 16 * 16, 0;
      while i < n
        invariant i % 16 == 0 && i <= n && leftover == 0
        invariant |done| % 16 == 0 && h == Absorbed(key, done)
        invariant done == old(done) + data[..i]
      {
        Block(data[i..i + 16]);
        assert data[..i + 16] == data[..i] + data[i..i + 16];
        i := i + 16;
      }
      if data[n..] != [] {
        Fill(data[n..]);
      }
      assert data == data[..n] + data[n..];
    }

    /** The tag of everything fed, as section 2.5 of RFC 8439 defines it. */
    method Finalize() returns (tag: seq<byte>)
      requires Valid()
      modifies this`h
      ensures tag == TagOf(rv, sv, old(Message()))
    {
      AbsorbedExact(key, rv, sv, done);
      h := AbsorbRest(key, h, buffer[..leftover], rv, sv, done);
      tag := FinishTag(h, key.pad, Accumulate(rv, done + buffer[..leftover]), sv);
    }
  }

  /** `poly1305_mac`. */
  method OneShot(msg: seq<byte>, key: seq<byte>) returns (tag: seq<byte>)
    requires |key| == 32
    ensures tag == Tag(key, msg)
  {
    var p := new Mac(key);
    p.Update(msg);
    assert p.Message() == msg;
    tag := p.Finalize();
  }
}
