/** The two-tier store of `coldcomp.rs`: a hot map over a compressing cold map, against one
    plain map of everything put. */
module ColdTier {
  import opened Arith
  import opened Bytes
  import opened Lex
  import opened MapSum

  datatype Policy = Never | Opportunistic | Always
  datatype Pressure = Comfortable | Tight | Critical

  /** The neural codec, as a pair of functions. */
  datatype Codec = Codec(compress: seq<byte> -> seq<byte>, decompress: seq<byte> -> seq<byte>)

  datatype Entry = Entry(id: Digest, payload: seq<byte>, originalLen: nat, compressed: bool)

  /** Recovered bytes are released only if they hash to the id. */
  function Decompress(h: HashFn, codec: Codec, e: Entry): Option<seq<byte>> {
    if e.compressed then
      var out := codec.decompress(e.payload);
      if h(out) == e.id then Some(out) else None
    else Some(e.payload)
  }

  /** The original length over the compressed one, times a thousand. */
  function Ratio(original: nat, compressed: nat): nat {
    if compressed == 0 then 1000 else original * 1000 / compressed
  }

  /** Whether an object goes in compressed; background work is admitted only without pressure. */
  predicate Compresses(policy: Policy, codec: Codec, data: seq<byte>, pressure: Pressure) {
    && policy != Never && pressure == Comfortable
    && (policy == Opportunistic ==> Ratio(|data|, |codec.compress(data)|) >= 1000)
  }

  function EntryFor(policy: Policy, codec: Codec, id: Digest, data: seq<byte>, pressure: Pressure): Entry {
    if Compresses(policy, codec, data, pressure) then Entry(id, codec.compress(data), |data|, true)
    else Entry(id, data, |data|, false)
  }

  /** What the policies mean: nothing is compressed under `Never` or under pressure; everything else
      under `Always`; and under `Opportunistic` whatever does not grow. The entry keeps the id and the
      original length, and the bytes or what the codec makes of them. */
  lemma PolicyHonoured(policy: Policy, codec: Codec, id: Digest, data: seq<byte>, pressure: Pressure)
    ensures var e := EntryFor(policy, codec, id, data, pressure);
      && e.id == id && e.originalLen == |data| && e.payload == (if e.compressed then codec.compress(data) else data)
      && (e.compressed <==> pressure == Comfortable && policy != Never
                            && (policy == Always || |codec.compress(data)| <= |data| || codec.compress(data) == []))
      && (policy == Opportunistic ==> |e.payload| <= |data|)
  {
    RatioExactly(|data|, |codec.compress(data)|);
  }

  lemma RatioExactly(original: nat, compressed: nat)
    ensures Ratio(original, compressed) >= 1000 <==> compressed == 0 || compressed <= original
  {
    if compressed > 0 {
      DivMod(original * 1000, compressed);
      if compressed <= original {
        MulBound(compressed, 1000, original, 1000);
        DivAtLeast(original * 1000, compressed, 1000);
      }
    }
  }

  lemma DivAtLeast(n: nat, d: nat, q: nat)
    requires d > 0 && d * q <= n
    ensures n / d >= q
  {
    DivMod(n, d);
    if n / d < q {
      MulBound(d, n / d + 1, d, q);
    }
  }

  type Entries = map<Digest, Entry>

  function OriginalLen(e: Entry): nat { e.originalLen }
  function PayloadLen(e: Entry): nat { |e.payload| }
  function IsCompressed(e: Entry): nat { if e.compressed then 1 else 0 }
  function IsRaw(e: Entry): nat { if e.compressed then 0 else 1 }

  function Less(a: nat, b: nat): nat { if a >= b then a - b else 0 }

  datatype Stats = Stats(bytesIn: nat, bytesStored: nat, bytesSaved: nat, compressed: nat, raw: nat)

  /** The byte totals are the sums over the entries. The object counts are not: eviction leaves
      them, so they exceed the entries by exactly the objects evicted. */
  ghost predicate Balanced(m: Entries, s: Stats, goneCompressed: nat, goneRaw: nat) {
    && s.bytesIn == Sum(m, OriginalLen) && s.bytesStored == Sum(m, PayloadLen)
    && s.bytesSaved == Less(s.bytesIn, s.bytesStored)
    && s.compressed == Sum(m, IsCompressed) + goneCompressed && s.raw == Sum(m, IsRaw) + goneRaw
  }

  /** The totals without the entry of an id, if it has one. */
  function Without(m: Entries, s: Stats, id: Digest): Stats {
    if id !in m then s else
      var e := m[id];
      Stats(Less(s.bytesIn, OriginalLen(e)), Less(s.bytesStored, PayloadLen(e)), s.bytesSaved,
            Less(s.compressed, IsCompressed(e)), Less(s.raw, IsRaw(e)))
  }

  /** Nothing saturates when an entry's share is taken back. */
  lemma TakeBack(m: Entries, s: Stats, goneCompressed: nat, goneRaw: nat, id: Digest)
    requires Balanced(m, s, goneCompressed, goneRaw)
    ensures var t, r := Without(m, s, id), m - {id};
            && t.bytesIn == Sum(r, OriginalLen) && t.bytesStored == Sum(r, PayloadLen)
            && t.compressed == Sum(r, IsCompressed) + goneCompressed && t.raw == Sum(r, IsRaw) + goneRaw
  {
    if id in m {
      SumRemove(m, OriginalLen, id);
      SumRemove(m, PayloadLen, id);
      SumRemove(m, IsCompressed, id);
      SumRemove(m, IsRaw, id);
    } else {
      assert m - {id} == m;
    }
  }

  function With(s: Stats, e: Entry): Stats {
    var i, p := s.bytesIn + OriginalLen(e), s.bytesStored + PayloadLen(e);
    Stats(i, p, Less(i, p), s.compressed + IsCompressed(e), s.raw + IsRaw(e))
  }

  lemma PutBack(m: Entries, s: Stats, goneCompressed: nat, goneRaw: nat, id: Digest, e: Entry)
    requires Balanced(m, s, goneCompressed, goneRaw)
    ensures Balanced(m[id := e], With(Without(m, s, id), e), goneCompressed, goneRaw)
  {
    TakeBack(m, s, goneCompressed, goneRaw, id);
    SumUpdate(m, OriginalLen, id, e);
    SumUpdate(m, PayloadLen, id, e);
    SumUpdate(m, IsCompressed, id, e);
    SumUpdate(m, IsRaw, id, e);
  }

  class ColdMemoryCompressor {
    const h: HashFn
    const codec: Codec
    const policy: Policy
    var entries: Entries
    var stats: Stats
    var failures: nat
    ghost var goneCompressed: nat
    ghost var goneRaw: nat

    ghost predicate Valid()
      reads this
    {
      Balanced(entries, stats, goneCompressed, goneRaw)
    }

    constructor (h: HashFn, codec: Codec, policy: Policy)
      ensures Valid() && entries == map[] && this.h == h && this.codec == codec && this.policy == policy
      ensures goneCompressed == goneRaw == 0
    {
      this.h, this.codec, this.policy := h, codec, policy;
      entries, stats, failures := map[], Stats(0, 0, 0, 0, 0), 0;
      goneCompressed, goneRaw := 0, 0;
    }

    /** A re-admitted id replaces its entry, and its share of the totals. */
    method AdmitCold(id: Digest, data: seq<byte>, pressure: Pressure) returns (shrunk: bool)
      requires Valid()
      modifies this
      ensures Valid() && entries == old(entries)[id := EntryFor(policy, codec, id, data, pressure)]
      ensures shrunk == Compresses(policy, codec, data, pressure)
      ensures goneCompressed == old(goneCompressed) && goneRaw == old(goneRaw) && failures == old(failures)
    {
      var e := EntryFor(policy, codec, id, data, pressure);
      PutBack(entries, stats, goneCompressed, goneRaw, id, e);
      var s := stats;
      if id in entries {
        var was := entries[id];
        s := s.(bytesIn := Less(s.bytesIn, was.originalLen), bytesStored := Less(s.bytesStored, |was.payload|));
        s := if was.compressed then s.(compressed := Less(s.compressed, 1)) else s.(raw := Less(s.raw, 1));
      }
      s := s.(bytesIn := s.bytesIn + |data|);
      shrunk := Compresses(policy, codec, data, pressure);
      s := s.(bytesStored := s.bytesStored + |e.payload|);
      s := s.(bytesSaved := Less(s.bytesIn, s.bytesStored));
      s := if shrunk then s.(compressed := s.compressed + 1) else s.(raw := s.raw + 1);
      assert s == With(Without(entries, stats, id), e);
      entries, stats := entries[id := e], s;
    }

    method Get(id: Digest) returns (r: Option<seq<byte>>)
      modifies this`failures
      ensures r == if id in entries then Decompress(h, codec, entries[id]) else None
      ensures failures == old(failures) + if id in entries && r.None? then 1 else 0
    {
      if id !in entries {
        return None;
      }
      r := Decompress(h, codec, entries[id]);
      if r.None? {
        failures := failures + 1;
      }
    }

    method Evict(id: Digest) returns (was: bool)
      requires Valid()
      modifies this
      ensures Valid() && entries == old(entries) - {id} && was == (id in old(entries)) && failures == old(failures)
      ensures was ==> goneCompressed + goneRaw == old(goneCompressed) + old(goneRaw) + 1
    {
      if id !in entries {
        assert entries - {id} == entries;
        return false;
      }
      var e := entries[id];
      TakeBack(entries, stats, goneCompressed, goneRaw, id);
      SumRemove(entries, IsCompressed, id);
      SumRemove(entries, IsRaw, id);
      stats := stats.(bytesStored := Less(stats.bytesStored, |e.payload|), bytesIn := Less(stats.bytesIn, e.originalLen));
      stats := stats.(bytesSaved := Less(stats.bytesIn, stats.bytesStored));
      entries := entries - {id};
      goneCompressed := goneCompressed + if e.compressed then 1 else 0;
      goneRaw := goneRaw + if e.compressed then 0 else 1;
      was := true;
    }
  }

  // ---------- two tiers ----------

  /** The entry is what admitting `data` under its id makes, compressed or not. */
  ghost predicate Faithful(codec: Codec, id: Digest, e: Entry, data: seq<byte>) {
    e.id == id && e.payload == if e.compressed then codec.compress(data) else data
  }

  /** What the codec makes of these bytes. */
  function Recovered(codec: Codec, data: seq<byte>): seq<byte> {
    codec.decompress(codec.compress(data))
  }

  /** When a cold read can be trusted: the codec recovers the bytes, or the id gives it away. */
  predicate Trusted(h: HashFn, codec: Codec, id: Digest, data: seq<byte>) {
    Recovered(codec, data) == data || h(Recovered(codec, data)) != id
  }

  /** For a content hash that is: unless the codec has found a collision. */
  lemma TrustedUnlessCollision(h: HashFn, codec: Codec, data: seq<byte>)
    ensures Trusted(h, codec, h(data), data) <==> !Collide(h, Recovered(codec, data), data)
  {
  }

  /** A compressed read yields the bytes admitted or nothing exactly when it can be trusted; a raw
      read always does; and it yields something, for a content hash and a codec that recovers it. */
  lemma ColdRead(h: HashFn, codec: Codec, id: Digest, e: Entry, data: seq<byte>)
    requires Faithful(codec, id, e, data)
    ensures (Decompress(h, codec, e).Some? ==> Decompress(h, codec, e).value == data)
       <==> (e.compressed ==> Trusted(h, codec, id, data))
    ensures Recovered(codec, data) == data && id == h(data) ==> Decompress(h, codec, e) == Some(data)
  {
  }

  type Contents = map<Digest, seq<byte>>

  /** The tiers hold the latest bytes of everything put that can be trusted; a cold copy counts
      only where there is no hot one. */
  ghost predicate Holds(h: HashFn, codec: Codec, contents: Contents, hot: Contents, cold: Entries) {
    && (forall k :: k in contents <==> k in hot || k in cold)
    && (forall k :: k in hot && Trusted(h, codec, k, contents[k]) ==> hot[k] == contents[k])
    && (forall k :: k in cold && k !in hot && Trusted(h, codec, k, contents[k]) ==> Faithful(codec, k, cold[k], contents[k]))
  }

  lemma HoldsPut(h: HashFn, codec: Codec, contents: Contents, hot: Contents, cold: Entries, id: Digest, data: seq<byte>)
    requires Holds(h, codec, contents, hot, cold)
    ensures Holds(h, codec, contents[id := data], hot[id := data], cold)
  {
  }

  lemma HoldsDemote(h: HashFn, codec: Codec, contents: Contents, hot: Contents, cold: Entries, k: Digest, e: Entry)
    requires Holds(h, codec, contents, hot, cold) && k in hot && Faithful(codec, k, e, hot[k])
    ensures Holds(h, codec, contents, hot - {k}, cold[k := e])
  {
  }

  lemma HoldsPromote(h: HashFn, codec: Codec, contents: Contents, hot: Contents, cold: Entries, k: Digest, data: seq<byte>)
    requires Holds(h, codec, contents, hot, cold) && k in contents
    requires Trusted(h, codec, k, contents[k]) ==> data == contents[k]
    ensures Holds(h, codec, contents, hot[k := data], cold - {k})
  {
  }

  lemma HoldsRead(h: HashFn, codec: Codec, contents: Contents, hot: Contents, cold: Entries, id: Digest)
    requires Holds(h, codec, contents, hot, cold) && id !in hot
    ensures id in cold <==> id in contents
    ensures id in cold && Decompress(h, codec, cold[id]).Some? && Trusted(h, codec, id, contents[id]) ==>
              Decompress(h, codec, cold[id]).value == contents[id]
    ensures id in cold && Decompress(h, codec, cold[id]).None? ==> Recovered(codec, contents[id]) != contents[id] || h(contents[id]) != id
  {
    if id in cold && Trusted(h, codec, id, contents[id]) {
      ColdRead(h, codec, id, cold[id], contents[id]);
    }
  }

  ghost predicate IsFirst(m: Contents, k: Digest) {
    k in m && forall x :: x in m ==> !LexLess(x, k)
  }

  /** `keys().next()` of an ordered map. */
  method FirstKey(m: Contents) returns (k: Digest)
    requires m != map[]
    ensures k in m && IsFirst(m, k)
  {
    ghost var first := FirstExists(m.Keys);
    assert first in m;
    k :| k in m && forall x :: x in m ==> !LexLess(x, k);
  }

  lemma FirstIsOne(m: Contents, k: Digest, x: Digest)
    requires IsFirst(m, k) && IsFirst(m, x)
    ensures k == x
  {
    LexTotal(k, x);
  }

  ghost function FirstOf(m: Contents): (k: Digest)
    requires m != map[]
    ensures IsFirst(m, k)
  {
    assert exists k :: IsFirst(m, k) by {
      var k := FirstExists(m.Keys);
      assert k in m && IsFirst(m, k);
    }
    var k :| IsFirst(m, k);
    k
  }

  /** Both tiers as a value, with the count of hot bytes the manager keeps. */
  datatype Tiers = Tiers(hot: Contents, used: nat, cold: Entries, demotions: nat, promotions: nat)

  ghost function DemoteTiers(policy: Policy, codec: Codec, t: Tiers, pressure: Pressure): Tiers {
    if t.hot == map[] then t else
      var k := FirstOf(t.hot);
      t.(hot := t.hot - {k}, used := Less(t.used, |t.hot[k]|),
         cold := t.cold[k := EntryFor(policy, codec, k, t.hot[k], pressure)], demotions := t.demotions + 1)
  }

  ghost function RoomTiers(policy: Policy, codec: Codec, quota: nat, t: Tiers, id: Digest, len: nat, pressure: Pressure): Tiers {
    var t1 := if id in t.hot then t.(used := Less(t.used, |t.hot[id]|)) else t;
    if t1.used + len > quota then DemoteTiers(policy, codec, t1, pressure) else t1
  }

  ghost function PutTiers(policy: Policy, codec: Codec, quota: nat, t: Tiers, id: Digest, data: seq<byte>, pressure: Pressure): Tiers {
    var t2 := RoomTiers(policy, codec, quota, t, id, |data|, pressure);
    t2.(hot := t2.hot[id := data], used := t2.used + |data|)
  }

  function ReadTiers(h: HashFn, codec: Codec, t: Tiers, id: Digest): Option<seq<byte>> {
    if id in t.hot then Some(t.hot[id]) else if id in t.cold then Decompress(h, codec, t.cold[id]) else None
  }

  /** The tiers once `r` was read under this id. */
  function AfterRead(quota: nat, t: Tiers, id: Digest, r: Option<seq<byte>>): Tiers {
    if id in t.hot || r.None? || t.used + |r.value| > quota then t
    else t.(hot := t.hot[id := r.value], used := t.used + |r.value|, cold := t.cold - {id}, promotions := t.promotions + 1)
  }

  function DataLen(d: seq<byte>): nat { |d| }

  /** The bytes in the hot tier. */
  ghost function HotBytes(hot: Contents): nat { Sum<Digest, seq<byte>>(hot, DataLen) }

  lemma HotRemove(hot: Contents, k: Digest)
    requires k in hot
    ensures HotBytes(hot) == |hot[k]| + HotBytes(hot - {k})
  {
    SumRemove<Digest, seq<byte>>(hot, DataLen, k);
  }

  lemma HotUpdate(hot: Contents, k: Digest, data: seq<byte>)
    ensures HotBytes(hot[k := data]) + (if k in hot then |hot[k]| else 0) == HotBytes(hot) + |data|
  {
    SumUpdate<Digest, seq<byte>>(hot, DataLen, k, data);
  }

  /** The count is the bytes in the hot tier. */
  ghost predicate Counted(t: Tiers) { t.used == HotBytes(t.hot) }

  /** The id put is itself the first hot key and the one displaced, so its old bytes are taken off the
      count twice. */
  ghost predicate TakenTwice(quota: nat, t: Tiers, id: Digest, data: seq<byte>) {
    && IsFirst(t.hot, id) && |t.hot[id]| > 0 && t.used > |t.hot[id]| && t.used - |t.hot[id]| + |data| > quota
  }

  /** A put keeps the count right exactly unless that happens. */
  lemma PutCounts(policy: Policy, codec: Codec, quota: nat, t: Tiers, id: Digest, data: seq<byte>, pressure: Pressure)
    requires Counted(t)
    ensures Counted(PutTiers(policy, codec, quota, t, id, data, pressure)) <==> !TakenTwice(quota, t, id, data)
  {
    var was := if id in t.hot then |t.hot[id]| else 0;
    if id in t.hot {
      HotRemove(t.hot, id);
    }
    var t' := PutTiers(policy, codec, quota, t, id, data, pressure);
    if t.used - was + |data| > quota && t.hot != map[] {
      var k := FirstOf(t.hot);
      Displaced(t.hot, k, id, data);
      assert t'.hot == (t.hot - {k})[id := data] && t'.used == Less(t.used - was, |t.hot[k]|) + |data|;
      if IsFirst(t.hot, id) {
        FirstIsOne(t.hot, k, id);
      }
    } else {
      HotUpdate(t.hot, id, data);
      assert t'.hot == t.hot[id := data] && t'.used == t.used - was + |data|;
    }
  }

  /** Three puts after which the count is one byte short: under a quota of two, one byte under each of two
      ids, then two bytes under the first. */
  lemma CountFallsShort(policy: Policy, codec: Codec, pressure: Pressure, a: Digest, b: Digest) returns (t1: Tiers, t2: Tiers, t3: Tiers)
    requires LexLess(a, b)
    ensures t1 == PutTiers(policy, codec, 2, Tiers(map[], 0, map[], 0, 0), a, [1], pressure)
    ensures t2 == PutTiers(policy, codec, 2, t1, b, [1], pressure) && t3 == PutTiers(policy, codec, 2, t2, a, [1, 1], pressure)
    ensures t3.used == 2 && HotBytes(t3.hot) == 3
  {
    LexTotal(a, b);
    t1 := PutTiers(policy, codec, 2, Tiers(map[], 0, map[], 0, 0), a, [1], pressure);
    t2 := PutTiers(policy, codec, 2, t1, b, [1], pressure);
    t3 := PutTiers(policy, codec, 2, t2, a, [1, 1], pressure);
    assert t2.hot == map[a := [1], b := [1]] && t2.used == 2;
    LexTotal(a, a);
    assert IsFirst(t2.hot, a);
    FirstIsOne(t2.hot, a, FirstOf(t2.hot));
    assert t3.hot == map[a := [1, 1], b := [1]] && t3.used == 2;
    HotRemove(t3.hot, a);
    HotRemove(t3.hot - {a}, b);
    assert t3.hot - {a} - {b} == map[];
  }

  /** The hot bytes once the entry of k has made room for this one. */
  lemma Displaced(hot: Contents, k: Digest, id: Digest, data: seq<byte>)
    requires k in hot
    ensures HotBytes((hot - {k})[id := data]) + |hot[k]| + (if id in hot && id != k then |hot[id]| else 0) == HotBytes(hot) + |data|
    ensures HotBytes(hot) >= |hot[k]| + (if id in hot && id != k then |hot[id]| else 0)
  {
    HotRemove(hot, k);
    HotUpdate(hot - {k}, id, data);
    if id in hot && id != k {
      HotRemove(hot - {k}, id);
    }
  }

  lemma GetCounts(quota: nat, t: Tiers, id: Digest, r: Option<seq<byte>>)
    requires Counted(t)
    ensures Counted(AfterRead(quota, t, id, r))
  {
    if r.Some? {
      HotUpdate(t.hot, id, r.value);
    }
  }

  /** What a put does: the data is hot; and exactly when it does not fit beside the rest, the entry
      with the first key, if there is one, has gone cold as the policy has it. */
  lemma PutExactly(policy: Policy, codec: Codec, quota: nat, t: Tiers, id: Digest, data: seq<byte>, pressure: Pressure, t': Tiers, k: Digest)
    requires t' == PutTiers(policy, codec, quota, t, id, data, pressure) && Counted(t)
    ensures var rest := HotBytes(t.hot - {id});
      && (rest + |data| <= quota || t.hot == map[] ==>
            t'.hot == t.hot[id := data] && t'.cold == t.cold && t'.demotions == t.demotions && t'.used == rest + |data|)
      && (rest + |data| > quota && IsFirst(t.hot, k) ==>
            && t'.hot == (t.hot - {k})[id := data] && t'.demotions == t.demotions + 1
            && t'.cold == t.cold[k := EntryFor(policy, codec, k, t.hot[k], pressure)])
      && t'.promotions == t.promotions
  {
    if id in t.hot {
      HotRemove(t.hot, id);
    } else {
      assert t.hot - {id} == t.hot;
    }
    if IsFirst(t.hot, k) {
      FirstIsOne(t.hot, k, FirstOf(t.hot));
    }
  }

  /** What a get does: a hot entry is read where it is; a cold one that can be read moves up exactly
      when there is room for it. */
  lemma GetExactly(h: HashFn, codec: Codec, quota: nat, t: Tiers, id: Digest, r: Option<seq<byte>>, t': Tiers)
    requires r == ReadTiers(h, codec, t, id) && t' == AfterRead(quota, t, id, r)
    ensures id in t.hot ==> r == Some(t.hot[id]) && t' == t
    ensures id !in t.hot && id !in t.cold ==> r == None && t' == t
    ensures id !in t.hot && id in t.cold ==> r == Decompress(h, codec, t.cold[id])
    ensures id !in t.hot && r.Some? && t.used + |r.value| <= quota ==>
      && t'.hot == t.hot[id := r.value] && t'.cold == t.cold - {id} && t'.used == t.used + |r.value|
      && t'.promotions == t.promotions + 1 && t'.demotions == t.demotions
    ensures id !in t.hot && r.Some? && t.used + |r.value| > quota ==> t' == t
  {
  }

  class ColdTierManager {
    const cold: ColdMemoryCompressor
    const hotQuota: nat
    var hot: Contents
    var hotUsed: nat
    var demotions: nat
    var promotions: nat
    /** The plain map: the latest bytes put under each id. */
    ghost var contents: Contents

    ghost predicate Valid()
      reads this, cold
    {
      cold.Valid() && Holds(cold.h, cold.codec, contents, hot, cold.entries)
    }

    ghost function Model(): Tiers
      reads this, cold
    {
      Tiers(hot, hotUsed, cold.entries, demotions, promotions)
    }

    constructor (quota: nat, h: HashFn, codec: Codec, policy: Policy)
      ensures Valid() && fresh(cold) && contents == map[] && cold.h == h && cold.codec == codec && cold.policy == policy
      ensures hotQuota == quota && Model() == Tiers(map[], 0, map[], 0, 0)
    {
      hotQuota := quota;
      cold := new ColdMemoryCompressor(h, codec, policy);
      hot, hotUsed, demotions, promotions := map[], 0, 0, 0;
      contents := map[];
    }

    method Put(id: Digest, data: seq<byte>, pressure: Pressure)
      requires Valid()
      modifies this, cold
      ensures Valid() && contents == old(contents)[id := data]
      ensures Model() == PutTiers(cold.policy, cold.codec, hotQuota, old(Model()), id, data, pressure)
    {
      MakeRoom(id, |data|, pressure);
      hotUsed := hotUsed + |data|;
      HoldsPut(cold.h, cold.codec, contents, hot, cold.entries, id, data);
      hot := hot[id := data];
      contents := contents[id := data];
    }

    /** Takes the old bytes of `id` off the count and, if `len` more do not fit, demotes one entry. */
    method MakeRoom(id: Digest, len: nat, pressure: Pressure)
      requires Valid()
      modifies this, cold
      ensures Valid() && contents == old(contents)
      ensures Model() == RoomTiers(cold.policy, cold.codec, hotQuota, old(Model()), id, len, pressure)
    {
      if id in hot {
        hotUsed := Less(hotUsed, |hot[id]|);
      }
      if hotUsed + len > hotQuota {
        Demote(pressure);
      }
    }

    /** Moves the entry with the first key, if any, to the cold tier. */
    method Demote(pressure: Pressure)
      requires Valid()
      modifies this, cold
      ensures Valid() && contents == old(contents)
      ensures Model() == DemoteTiers(cold.policy, cold.codec, old(Model()), pressure)
    {
      if hot == map[] {
        return;
      }
      var victim := FirstKey(hot);
      FirstIsOne(hot, victim, FirstOf(hot));
      hotUsed := Less(hotUsed, |hot[victim]|);
      var e := EntryFor(cold.policy, cold.codec, victim, hot[victim], pressure);
      HoldsDemote(cold.h, cold.codec, contents, hot, cold.entries, victim, e);
      var shrunk := cold.AdmitCold(victim, hot[victim], pressure);
      hot := hot - {victim};
      demotions := demotions + 1;
    }

    /** Exactly the latest bytes put under `id`, whichever tier holds them, or None, if those bytes
        can be trusted; and None for an id that was put only if the codec does not recover them or
        the id is not their hash. */
    method Get(id: Digest) returns (r: Option<seq<byte>>)
      requires Valid()
      modifies this, cold
      ensures Valid() && contents == old(contents)
      ensures r.Some? ==> id in contents && (Trusted(cold.h, cold.codec, id, contents[id]) ==> r.value == contents[id])
      ensures r.None? ==> id !in contents || Recovered(cold.codec, contents[id]) != contents[id] || cold.h(contents[id]) != id
      ensures r == ReadTiers(cold.h, cold.codec, old(Model()), id) && Model() == AfterRead(hotQuota, old(Model()), id, r)
    {
      if id in hot {
        return Some(hot[id]);
      }
      r := ReadCold(id);
      if r.None? {
        return None;
      }
      if hotUsed + |r.value| <= hotQuota {
        Promote(id, r.value);
      }
    }

    method ReadCold(id: Digest) returns (r: Option<seq<byte>>)
      requires Valid() && id !in hot
      modifies cold`failures
      ensures Valid() && contents == old(contents) && Model() == old(Model())
      ensures r == ReadTiers(cold.h, cold.codec, Model(), id)
      ensures r.Some? ==> id in contents && (Trusted(cold.h, cold.codec, id, contents[id]) ==> r.value == contents[id])
      ensures r.None? ==> id !in contents || Recovered(cold.codec, contents[id]) != contents[id] || cold.h(contents[id]) != id
    {
      HoldsRead(cold.h, cold.codec, contents, hot, cold.entries, id);
      r := cold.Get(id);
    }

    method Promote(id: Digest, data: seq<byte>)
      requires Valid() && id in contents && (Trusted(cold.h, cold.codec, id, contents[id]) ==> contents[id] == data)
      modifies this, cold
      ensures Valid() && contents == old(contents)
      ensures Model() == old(Model()).(hot := old(hot)[id := data], used := old(hotUsed) + |data|,
                                       cold := old(cold.entries) - {id}, promotions := old(promotions) + 1)
    {
      HoldsPromote(cold.h, cold.codec, contents, hot, cold.entries, id, data);
      var was := cold.Evict(id);
      hotUsed := hotUsed + |data|;
      hot := hot[id := data];
      promotions := promotions + 1;
    }
  }
}
