/** The gossip format of `consistency.rs`: a replica's cells as bytes, in key order, and the
    reader that keeps what precedes a malformed entry. */
module GossipCodec {
  import opened Bytes
  import opened Lex
  import opened Fence
  import opened BftCodec

  /** Whether bytes are valid text; keys are. */
  type Utf8 = seq<byte> -> bool

  // ---------- writing ----------

  /** The keys in the order an ordered map is walked in. */
  ghost function KeyOrder(keys: set<Key>): (r: seq<Key>)
    ensures |r| == |keys| && forall k :: k in r <==> k in keys
  {
    if keys == {} then [] else
      var k := First(keys);
      [k] + KeyOrder(keys - {k})
  }

  ghost function First(keys: set<Key>): (k: Key)
    requires keys != {}
    ensures k in keys && forall x :: x in keys ==> !LexLess(x, k)
  {
    assert exists k :: k in keys && forall x :: x in keys ==> !LexLess(x, k) by {
      var k := FirstExists(keys);
    }
    var k :| k in keys && forall x :: x in keys ==> !LexLess(x, k);
    k
  }

  lemma {:induction false} KeyOrderDistinct(keys: set<Key>, i: nat, j: nat)
    requires i < j < |keys|
    ensures KeyOrder(keys)[i] != KeyOrder(keys)[j]
    decreases |keys|
  {
    var k := First(keys);
    var rest := KeyOrder(keys - {k});
    if i > 0 {
      KeyOrderDistinct(keys - {k}, i - 1, j - 1);
    } else {
      assert rest[j - 1] in rest;
    }
  }

  /** The cells of some keys, in the order given. */
  ghost function CellsOf(s: Store, keys: seq<Key>): (r: seq<Entry>)
    requires forall k :: k in keys ==> k in s
    ensures |r| == |keys| && forall i :: 0 <= i < |r| ==> r[i].key == keys[i] && keys[i] in s && r[i].cell == s[keys[i]]
  {
    seq(|keys|, i requires 0 <= i < |keys| => assert keys[i] in keys; Entry(keys[i], s[keys[i]]))
  }

  ghost function Listing(s: Store): (r: seq<Entry>)
    ensures |r| == |s|
  {
    CellsOf(s, KeyOrder(s.Keys))
  }

  /** A listing names every key of the store exactly once, with its cell. */
  lemma ListingExact(s: Store)
    ensures forall i :: 0 <= i < |Listing(s)| ==> Listing(s)[i].key in s && Listing(s)[i].cell == s[Listing(s)[i].key]
    ensures forall i, j :: 0 <= i < j < |Listing(s)| ==> Listing(s)[i].key != Listing(s)[j].key
    ensures forall k :: k in s ==> exists i :: 0 <= i < |Listing(s)| && Listing(s)[i].key == k
  {
    var keys, r := KeyOrder(s.Keys), Listing(s);
    forall i, j | 0 <= i < j < |r|
      ensures r[i].key != r[j].key
    {
      KeyOrderDistinct(s.Keys, i, j);
    }
    forall k | k in s
      ensures exists i :: 0 <= i < |r| && r[i].key == k
    {
      assert k in keys;
      var i :| 0 <= i < |keys| && keys[i] == k;
      assert r[i].key == k;
    }
  }

  function Stamp(t: Timestamp, tail: seq<byte>): seq<byte> {
    LE(t.wall, 8) + (LE(t.logical, 4) + tail)
  }

  function Flag(b: bool): byte { if b then 1 else 0 }

  function EncodeCell(c: Cell, tail: seq<byte>): seq<byte> {
    Stamp(c.stamp, Stamp(c.fence, [Flag(c.tombstoned)] + (c.vhash + (Chunk(c.value) + tail))))
  }

  function EncodeList(entries: seq<Entry>): seq<byte> {
    if entries == [] then [] else Chunk(entries[0].key) + EncodeCell(entries[0].cell, EncodeList(entries[1..]))
  }

  /** `encode`. */
  ghost function EncodeStore(s: Store): seq<byte> {
    LE(|s|, 4) + EncodeList(Listing(s))
  }

  // ---------- reading ----------

  function TakeStamp(b: seq<byte>): Option<(Timestamp, seq<byte>)> {
    var (wall, b1) :- TakeU64(b);
    var (logical, b2) :- TakeU32(b1);
    Some((Timestamp(wall, logical), b2))
  }

  function TakeKey(utf8: Utf8, b: seq<byte>): Option<(Key, seq<byte>)> {
    var (k, b1) :- TakeChunk(b);
    if utf8(k) then Some((k, b1)) else None
  }

  function TakeCell(b: seq<byte>): Option<(Cell, seq<byte>)> {
    var (stamp, b1) :- TakeStamp(b);
    var (fence, b2) :- TakeStamp(b1);
    var (tomb, b3) :- Take(b2, 1);
    var (vhash, b4) :- TakeDigest(b3);
    var (value, b5) :- TakeChunk(b4);
    Some((Cell(stamp, vhash, value, fence, tomb[0] != 0), b5))
  }

  function TakeEntry(utf8: Utf8, b: seq<byte>): Option<(Entry, seq<byte>)> {
    var (k, b1) :- TakeKey(utf8, b);
    var (c, b2) :- TakeCell(b1);
    Some((Entry(k, c), b2))
  }

  /** What was read before the end or the first fault, and which it was. */
  datatype Decoded = Decoded(entries: seq<Entry>, ok: bool)

  /** Up to n entries. In three steps, so that it unfolds only in the lemmas that follow. */
  function TakeList(utf8: Utf8, b: seq<byte>, n: nat): Decoded
    decreases n, 2
  {
    if n == 0 then Decoded([], true) else TakeMore(utf8, b, n)
  }

  function TakeMore(utf8: Utf8, b: seq<byte>, n: nat): Decoded
    requires n > 0
    decreases n, 1
  {
    TakeNext(utf8, b, n)
  }

  function TakeNext(utf8: Utf8, b: seq<byte>, n: nat): Decoded
    requires n > 0
    decreases n, 0
  {
    match TakeEntry(utf8, b)
    case None => Decoded([], false)
    case Some((e, b1)) =>
      var rest := TakeList(utf8, b1, n - 1);
      Decoded([e] + rest.entries, rest.ok)
  }

  lemma TakeListOne(utf8: Utf8, b: seq<byte>, n: nat, e: Entry, b1: seq<byte>)
    requires n > 0 && TakeEntry(utf8, b) == Some((e, b1))
    ensures TakeList(utf8, b, n).entries == [e] + TakeList(utf8, b1, n - 1).entries
    ensures TakeList(utf8, b, n).ok == TakeList(utf8, b1, n - 1).ok
  {
    assert TakeMore(utf8, b, n) == TakeNext(utf8, b, n);
  }

  lemma TakeListFault(utf8: Utf8, b: seq<byte>, n: nat)
    requires n > 0 && TakeEntry(utf8, b).None?
    ensures TakeList(utf8, b, n) == Decoded([], false)
  {
    assert TakeMore(utf8, b, n) == TakeNext(utf8, b, n);
  }

  function DecodeStore(utf8: Utf8, b: seq<byte>): Decoded {
    match TakeU32(b)
    case None => Decoded([], false)
    case Some((n, b1)) => TakeList(utf8, b1, n)
  }

  // ---------- the round trip ----------

  lemma TakeFrontStamp(t: Timestamp, tail: seq<byte>)
    ensures TakeStamp(Stamp(t, tail)) == Some((t, tail))
  {
    TakeFrontU64(t.wall, LE(t.logical, 4) + tail);
    TakeFrontU32(t.logical, tail);
  }

  lemma TakeFrontCell(c: Cell, tail: seq<byte>)
    requires |c.value| < LIMIT
    ensures TakeCell(EncodeCell(c, tail)) == Some((c, tail))
  {
    var t4 := Chunk(c.value) + tail;
    var t3 := c.vhash + t4;
    var t2 := [Flag(c.tombstoned)] + t3;
    TakeFrontStamp(c.stamp, Stamp(c.fence, t2));
    TakeFrontStamp(c.fence, t2);
    TakeFront([Flag(c.tombstoned)], t3);
    TakeFrontDigest(c.vhash, t4);
    TakeFrontChunk(c.value, tail);
  }

  ghost predicate EntryFits(utf8: Utf8, e: Entry) {
    |e.key| < LIMIT && utf8(e.key) && |e.cell.value| < LIMIT
  }

  lemma TakeFrontEntry(utf8: Utf8, e: Entry, tail: seq<byte>)
    requires EntryFits(utf8, e)
    ensures TakeEntry(utf8, Chunk(e.key) + EncodeCell(e.cell, tail)) == Some((e, tail))
  {
    TakeFrontChunk(e.key, EncodeCell(e.cell, tail));
    TakeFrontCell(e.cell, tail);
  }

  lemma TakeListCons(utf8: Utf8, b: seq<byte>, n: nat, e: Entry, b1: seq<byte>, rest: seq<Entry>)
    requires n > 0 && TakeEntry(utf8, b) == Some((e, b1)) && TakeList(utf8, b1, n - 1) == Decoded(rest, true)
    ensures TakeList(utf8, b, n) == Decoded([e] + rest, true)
  {
    TakeListOne(utf8, b, n, e, b1);
  }

  ghost predicate ListFits(utf8: Utf8, entries: seq<Entry>) {
    forall i :: 0 <= i < |entries| ==> EntryFits(utf8, entries[i])
  }

  lemma {:induction false} ListRoundTrip(utf8: Utf8, entries: seq<Entry>)
    requires ListFits(utf8, entries)
    ensures TakeList(utf8, EncodeList(entries), |entries|) == Decoded(entries, true)
    decreases |entries|
  {
    if entries != [] {
      var e, rest := entries[0], entries[1..];
      FirstAndRest(entries, e, rest);
      ListRoundTrip(utf8, rest);
      TakeFrontEntry(utf8, e, EncodeList(rest));
      TakeListCons(utf8, EncodeList(entries), |entries|, e, EncodeList(rest), rest);
    }
  }

  lemma FirstAndRest(entries: seq<Entry>, e: Entry, rest: seq<Entry>)
    requires entries != [] && e == entries[0] && rest == entries[1..]
    ensures entries == [e] + rest && EncodeList(entries) == Chunk(e.key) + EncodeCell(e.cell, EncodeList(rest))
  {
  }

  ghost predicate StoreFits(utf8: Utf8, s: Store) {
    |s| < LIMIT && forall k :: k in s ==> |k| < LIMIT && utf8(k) && |s[k].value| < LIMIT
  }

  /** Gossip decodes to exactly the sender's cells, in key order. */
  lemma StoreRoundTrip(utf8: Utf8, s: Store)
    requires StoreFits(utf8, s)
    ensures DecodeStore(utf8, EncodeStore(s)) == Decoded(Listing(s), true)
  {
    ListingExact(s);
    TakeFrontU32(|s|, EncodeList(Listing(s)));
    ListRoundTrip(utf8, Listing(s));
  }

  // ---------- the code ----------

  lemma FirstUnique(keys: set<Key>, k: Key)
    requires k in keys && forall x :: x in keys ==> !LexLess(x, k)
    ensures k == First(keys)
  {
    LexTotal(k, First(keys));
  }

  method WriteStamp(t: Timestamp, ghost tail: seq<byte>) returns (b: seq<byte>)
    ensures b + tail == Stamp(t, tail)
  {
    b := LE(t.wall, 8) + LE(t.logical, 4);
  }

  method WriteEntry(k: Key, c: Cell, ghost tail: seq<byte>) returns (b: seq<byte>)
    ensures b + tail == Chunk(k) + EncodeCell(c, tail)
  {
    ghost var t1 := [Flag(c.tombstoned)] + (c.vhash + (Chunk(c.value) + tail));
    var fence := WriteStamp(c.fence, t1);
    var stamp := WriteStamp(c.stamp, fence + t1);
    b := Chunk(k) + (stamp + (fence + ([Flag(c.tombstoned)] + (c.vhash + Chunk(c.value)))));
    assert b + tail == Chunk(k) + (stamp + (fence + t1));
  }

  /** The smallest key first, then the rest. */
  lemma PeelFirst(s: Store, rem: set<Key>, k: Key)
    requires rem <= s.Keys && rem != {} && k == First(rem)
    ensures (forall x :: x in KeyOrder(rem) ==> x in s) && (forall x :: x in KeyOrder(rem - {k}) ==> x in s)
    ensures EncodeList(CellsOf(s, KeyOrder(rem)))
         == Chunk(k) + EncodeCell(s[k], EncodeList(CellsOf(s, KeyOrder(rem - {k}))))
  {
    CellsPeel(s, rem, k);
    EncodeCons(Entry(k, s[k]), CellsOf(s, KeyOrder(rem - {k})));
  }

  lemma CellsPeel(s: Store, rem: set<Key>, k: Key)
    requires rem <= s.Keys && rem != {} && k == First(rem)
    ensures (forall x :: x in KeyOrder(rem) ==> x in s) && (forall x :: x in KeyOrder(rem - {k}) ==> x in s)
    ensures CellsOf(s, KeyOrder(rem)) == [Entry(k, s[k])] + CellsOf(s, KeyOrder(rem - {k}))
  {
    CellsCons(s, k, KeyOrder(rem - {k}));
  }

  lemma CellsCons(s: Store, k: Key, keys: seq<Key>)
    requires k in s && forall x :: x in keys ==> x in s
    ensures CellsOf(s, [k] + keys) == [Entry(k, s[k])] + CellsOf(s, keys)
  {
  }

  lemma EncodeCons(e: Entry, rest: seq<Entry>)
    ensures EncodeList([e] + rest) == Chunk(e.key) + EncodeCell(e.cell, EncodeList(rest))
  {
    assert ([e] + rest)[1..] == rest;
  }

  /** `encode`, walking the ordered map. */
  method WriteStore(s: Store) returns (b: seq<byte>)
    ensures b == EncodeStore(s)
  {
    b := LE(|s|, 4);
    var rem := s.Keys;
    while rem != {}
      invariant rem <= s.Keys
      invariant b + EncodeList(CellsOf(s, KeyOrder(rem))) == EncodeStore(s)
    {
      ghost var first := First(rem);
      var k :| k in rem && forall x :: x in rem ==> !LexLess(x, k);
      FirstUnique(rem, k);
      PeelFirst(s, rem, k);
      ghost var tail := EncodeList(CellsOf(s, KeyOrder(rem - {k})));
      var e := WriteEntry(k, s[k], tail);
      Assoc(b, e, tail);
      b := b + e;
      rem := rem - {k};
    }
  }

  method ReadCell(b: seq<byte>) returns (r: Option<(Cell, seq<byte>)>)
    ensures r == TakeCell(b)
  {
    var stamp :- TakeStamp(b);
    var fence :- TakeStamp(stamp.1);
    var tomb :- Take(fence.1, 1);
    var vhash :- TakeDigest(tomb.1);
    var value :- TakeChunk(vhash.1);
    r := Some((Cell(stamp.0, vhash.0, value.0, fence.0, tomb.0[0] != 0), value.1));
  }

  method ReadOne(utf8: Utf8, b: seq<byte>) returns (r: Option<(Entry, seq<byte>)>)
    ensures r == TakeEntry(utf8, b)
  {
    var k :- TakeKey(utf8, b);
    var c :- ReadCell(k.1);
    r := Some((Entry(k.0, c.0), c.1));
  }

  /** The fields of a cell, in order. */
  function CellFieldsOf(c: Cell): seq<seq<byte>> {
    [LE(c.stamp.wall, 8), LE(c.stamp.logical, 4), LE(c.fence.wall, 8), LE(c.fence.logical, 4),
     if c.tombstoned then [1] else [0], c.vhash, LE(|c.value|, 4), c.value]
  }

  lemma CellLayout(c: Cell)
    ensures EncodeCell(c, []) == Joined(CellFieldsOf(c))
  {
    var f := CellFieldsOf(c);
    JoinedLast(f[7]);
    Peel(f, 6);
    Peel(f, 5);
    Peel(f, 4);
    Peel(f, 3);
    Peel(f, 2);
    Peel(f, 1);
    Peel(f, 0);
    assert f[7..] == [f[7]] && Chunk(c.value) + [] == Chunk(c.value);
  }

  lemma {:induction false} KeysAscend(keys: set<Key>, i: nat, j: nat)
    requires i < j < |keys|
    ensures LexLess(KeyOrder(keys)[i], KeyOrder(keys)[j])
    decreases |keys|
  {
    var k := First(keys);
    var rest := KeyOrder(keys - {k});
    if i > 0 {
      KeysAscend(keys - {k}, i - 1, j - 1);
    } else {
      assert rest[j - 1] in rest;
      LexTotal(k, rest[j - 1]);
    }
  }

  /** A message is the number of entries, then the entries in ascending key order, each its key behind
      its length and then its cell. */
  lemma MessageLayout(s: Store, i: nat)
    requires i < |s|
    ensures var m, l := EncodeStore(s), Listing(s);
      && m[..4] == LE(|s|, 4) && m[4..] == EncodeList(l)
      && EncodeList(l[i..]) == LE(|l[i].key|, 4) + l[i].key + EncodeCell(l[i].cell, EncodeList(l[i + 1..]))
      && (i + 1 < |s| ==> LexLess(l[i].key, l[i + 1].key))
  {
    var l := Listing(s);
    assert l[i..][0] == l[i] && l[i..][1..] == l[i + 1..];
    if i + 1 < |s| {
      KeysAscend(s.Keys, i, i + 1);
    }
  }

  // ---------- what was read was written ----------

  lemma StampRead(b: seq<byte>)
    requires TakeStamp(b).Some?
    ensures b == Stamp(TakeStamp(b).value.0, TakeStamp(b).value.1)
  {
    U64Read(b);
    U32Read(TakeU64(b).value.1);
  }

  lemma CellRead(b: seq<byte>) returns (flag: byte)
    requires TakeCell(b).Some?
    ensures var (c, rest) := TakeCell(b).value;
      && (flag != 0 <==> c.tombstoned)
      && b == Stamp(c.stamp, Stamp(c.fence, [flag] + (c.vhash + (Chunk(c.value) + rest))))
  {
    StampRead(b);
    var b1 := TakeStamp(b).value.1;
    StampRead(b1);
    var b2 := TakeStamp(b1).value.1;
    var b3 := Take(b2, 1).value.1;
    flag := b2[0];
    FlagRead(b2);
    DigestRead(b3);
    ChunkRead(TakeDigest(b3).value.1);
  }

  lemma FlagRead(b: seq<byte>)
    requires b != []
    ensures Take(b, 1) == Some(([b[0]], b[1..])) && b == [b[0]] + b[1..]
  {
    assert b[..1] == [b[0]];
  }

  lemma DigestRead(b: seq<byte>)
    requires TakeDigest(b).Some?
    ensures b == TakeDigest(b).value.0 + TakeDigest(b).value.1
  {
    assert b == b[..32] + b[32..];
  }

  /** Whatever is read as an entry is the encoding of that entry, in front of what is left, but for a
      flag byte other than 0 and 1; and its key is text. */
  lemma EntryRead(utf8: Utf8, b: seq<byte>) returns (flag: byte)
    requires TakeEntry(utf8, b).Some?
    ensures var (e, rest) := TakeEntry(utf8, b).value;
      && utf8(e.key) && (flag != 0 <==> e.cell.tombstoned)
      && b == Chunk(e.key) + Stamp(e.cell.stamp, Stamp(e.cell.fence, [flag] + (e.cell.vhash + (Chunk(e.cell.value) + rest))))
  {
    ChunkRead(b);
    flag := CellRead(TakeKey(utf8, b).value.1);
  }
}
