/** `FencedReplica` of `consistency.rs`: the operations on a store of cells, convergence of
    gossip, and what every run keeps. */
module Replica {
  import opened Bytes
  import opened Fence
  import opened GossipCodec
  import opened BftCodec

  ghost predicate HonestStore(h: HashFn, w: Corpus, s: Store) {
    forall k :: k in s ==> Honest(h, w, s[k])
  }

  ghost predicate SoundStore(s: Store) {
    forall k :: k in s ==> Sound(s[k])
  }

  /** The fence of a key, known or not. */
  function FenceOf(s: Store, k: Key): Timestamp {
    if k in s then s[k].fence else ORIGIN
  }

  // ---------- gossip as a join of stores ----------

  /** Two stores joined key by key. */
  ghost function Join(s: Store, t: Store): Store {
    map k | k in s.Keys + t.Keys :: if k !in t then s[k] else if k !in s then t[k] else Merge(s[k], t[k])
  }

  lemma JoinHonest(h: HashFn, w: Corpus, s: Store, t: Store)
    requires HonestStore(h, w, s) && HonestStore(h, w, t)
    ensures HonestStore(h, w, Join(s, t))
  {
    forall k | k in s && k in t
      ensures Honest(h, w, Merge(s[k], t[k]))
    {
      MergeHonest(h, w, s[k], t[k]);
    }
  }

  lemma JoinIdempotent(s: Store)
    requires SoundStore(s)
    ensures Join(s, s) == s
  {
    forall k | k in s
      ensures Merge(s[k], s[k]) == s[k]
    {
      MergeIdempotent(s[k]);
    }
  }

  lemma JoinCommutes(h: HashFn, w: Corpus, s: Store, t: Store)
    requires CollisionFree(h, w) && HonestStore(h, w, s) && HonestStore(h, w, t)
    ensures Join(s, t) == Join(t, s)
  {
    forall k | k in s && k in t
      ensures Merge(s[k], t[k]) == Merge(t[k], s[k])
    {
      MergeCommutes(h, w, s[k], t[k]);
    }
  }

  lemma JoinAssociates(h: HashFn, w: Corpus, s: Store, t: Store, u: Store)
    requires CollisionFree(h, w) && HonestStore(h, w, s) && HonestStore(h, w, t) && HonestStore(h, w, u)
    ensures Join(Join(s, t), u) == Join(s, Join(t, u))
  {
    var l, r := Join(Join(s, t), u), Join(s, Join(t, u));
    assert l.Keys == r.Keys;
    forall k | k in l
      ensures l[k] == r[k]
    {
      if k in s && k in t && k in u {
        MergeAssociates(h, w, s[k], t[k], u[k]);
      }
    }
  }

  /** t has learned everything s knows. */
  ghost predicate Below(s: Store, t: Store) {
    Join(s, t) == t
  }

  /** The store after absorbing gossiped states in order. */
  ghost function Absorb(s: Store, gossip: seq<Store>): Store {
    if gossip == [] then s else Join(Absorb(s, gossip[..|gossip| - 1]), gossip[|gossip| - 1])
  }

  ghost predicate AllHonest(h: HashFn, w: Corpus, gossip: seq<Store>) {
    forall i :: 0 <= i < |gossip| ==> HonestStore(h, w, gossip[i])
  }

  lemma {:induction false} AbsorbHonest(h: HashFn, w: Corpus, s: Store, gossip: seq<Store>)
    requires HonestStore(h, w, s) && AllHonest(h, w, gossip)
    ensures HonestStore(h, w, Absorb(s, gossip))
  {
    if gossip != [] {
      AbsorbHonest(h, w, s, gossip[..|gossip| - 1]);
      JoinHonest(h, w, Absorb(s, gossip[..|gossip| - 1]), gossip[|gossip| - 1]);
    }
  }

  lemma JoinAbove(h: HashFn, w: Corpus, s: Store, t: Store)
    requires CollisionFree(h, w) && HonestStore(h, w, s) && HonestStore(h, w, t)
    ensures Below(s, Join(s, t)) && Below(t, Join(s, t))
  {
    JoinAssociates(h, w, s, s, t);
    JoinIdempotent(s);
    JoinAssociates(h, w, t, t, s);
    JoinIdempotent(t);
    JoinCommutes(h, w, s, t);
  }

  lemma BelowTransitive(h: HashFn, w: Corpus, s: Store, t: Store, u: Store)
    requires CollisionFree(h, w) && HonestStore(h, w, s) && HonestStore(h, w, t) && HonestStore(h, w, u)
    requires Below(s, t) && Below(t, u)
    ensures Below(s, u)
  {
    JoinAssociates(h, w, s, t, u);
  }

  lemma JoinLeast(h: HashFn, w: Corpus, s: Store, t: Store, u: Store)
    requires CollisionFree(h, w) && HonestStore(h, w, s) && HonestStore(h, w, t) && HonestStore(h, w, u)
    requires Below(s, u) && Below(t, u)
    ensures Below(Join(s, t), u)
  {
    JoinAssociates(h, w, s, t, u);
  }

  /** Everything absorbed is below the result. */
  lemma {:induction false} AbsorbAbove(h: HashFn, w: Corpus, s: Store, gossip: seq<Store>, g: Store)
    requires CollisionFree(h, w) && HonestStore(h, w, s) && AllHonest(h, w, gossip) && (g == s || g in gossip)
    ensures Below(g, Absorb(s, gossip))
    decreases |gossip|
  {
    if gossip == [] {
      JoinIdempotent(s);
    } else {
      var front, last := gossip[..|gossip| - 1], gossip[|gossip| - 1];
      AbsorbHonest(h, w, s, front);
      AbsorbHonest(h, w, s, gossip);
      JoinAbove(h, w, Absorb(s, front), last);
      if g == s || g in front {
        AbsorbAbove(h, w, s, front, g);
        BelowTransitive(h, w, g, Absorb(s, front), Absorb(s, gossip));
      }
    }
  }

  /** And the result is the least such store. */
  lemma {:induction false} AbsorbLeast(h: HashFn, w: Corpus, s: Store, gossip: seq<Store>, u: Store)
    requires CollisionFree(h, w) && HonestStore(h, w, s) && AllHonest(h, w, gossip) && HonestStore(h, w, u)
    requires Below(s, u) && forall i :: 0 <= i < |gossip| ==> Below(gossip[i], u)
    ensures Below(Absorb(s, gossip), u)
    decreases |gossip|
  {
    if gossip != [] {
      var front := gossip[..|gossip| - 1];
      AbsorbLeast(h, w, s, front, u);
      AbsorbHonest(h, w, s, front);
      JoinLeast(h, w, Absorb(s, front), gossip[|gossip| - 1], u);
    }
  }

  /** Replicas that started from or absorbed the same set of states, in any order and with any
      repeats, hold the same cells. */
  lemma Converge(h: HashFn, w: Corpus, s: Store, xs: seq<Store>, t: Store, ys: seq<Store>)
    requires CollisionFree(h, w) && HonestStore(h, w, s) && HonestStore(h, w, t) && AllHonest(h, w, xs) && AllHonest(h, w, ys)
    requires forall g :: (g == s || g in xs) <==> (g == t || g in ys)
    ensures Absorb(s, xs) == Absorb(t, ys)
  {
    HalfConverge(h, w, s, xs, t, ys);
    HalfConverge(h, w, t, ys, s, xs);
    AbsorbHonest(h, w, s, xs);
    AbsorbHonest(h, w, t, ys);
    JoinCommutes(h, w, Absorb(s, xs), Absorb(t, ys));
  }

  lemma HalfConverge(h: HashFn, w: Corpus, s: Store, xs: seq<Store>, t: Store, ys: seq<Store>)
    requires CollisionFree(h, w) && HonestStore(h, w, s) && HonestStore(h, w, t) && AllHonest(h, w, xs) && AllHonest(h, w, ys)
    requires forall g :: (g == s || g in xs) ==> (g == t || g in ys)
    ensures Below(Absorb(s, xs), Absorb(t, ys))
  {
    var u := Absorb(t, ys);
    AbsorbHonest(h, w, t, ys);
    AbsorbAbove(h, w, t, ys, s);
    forall i | 0 <= i < |xs|
      ensures Below(xs[i], u)
    {
      AbsorbAbove(h, w, t, ys, xs[i]);
    }
    AbsorbLeast(h, w, s, xs, u);
  }

  // ---------- the operations ----------

  datatype State = State(cells: Store, pinned: set<Key>)

  datatype Refusal = BelowFence | Pinned | NoHistory

  const LOGICAL_MAX: nat := 0xffff_ffff

  function Put(h: HashFn, s: State, k: Key, value: seq<byte>, stamp: Timestamp): (State, Option<Refusal>) {
    var fence := FenceOf(s.cells, k);
    if !Before(fence, stamp) then (s, Some(BelowFence))
    else (s.(cells := s.cells[k := Cell(stamp, h(value), value, fence, false)]), None)
  }

  /** The cell a rollback leaves; `logical + 1` wraps at 32 bits. */
  function RolledBack(h: HashFn, c: Cell, value: seq<byte>, now: u64): Cell {
    var fence := Later(c.stamp, c.fence);
    Cell(Timestamp(Max(fence.wall, now), (fence.logical + 1) % 0x1_0000_0000), h(value), value, fence, false)
  }

  function Rollback(h: HashFn, s: State, k: Key, value: seq<byte>, now: u64): (State, Option<Refusal>) {
    if k in s.pinned then (s, Some(Pinned))
    else if k !in s.cells then (s, Some(NoHistory))
    else (s.(cells := s.cells[k := RolledBack(h, s.cells[k], value, now)]), None)
  }

  function Quarantined(c: Cell, now: u64): Cell {
    var fence := Timestamp(Max(Max(c.stamp.wall, c.fence.wall), now), (c.stamp.logical + 1) % 0x1_0000_0000);
    Cell(fence, ZeroDigest(), [], fence, true)
  }

  function Quarantine(s: State, k: Key, now: u64): (State, Option<Refusal>) {
    if k in s.pinned then (s, Some(Pinned))
    else if k !in s.cells then (s, Some(NoHistory))
    else (s.(cells := s.cells[k := Quarantined(s.cells[k], now)]), None)
  }

  /** `merge_one`: a pinned key keeps its own fence. */
  function MergeOne(s: State, e: Entry): State {
    var local := if e.key in s.cells then Some(s.cells[e.key]) else None;
    var known := FenceOf(s.cells, e.key);
    var fence := if e.key in s.pinned then known else Later(known, e.cell.fence);
    var mine := if local.Some? then Offer(fence, local.value) else None;
    s.(cells := s.cells[e.key := Settle(fence, Best(mine, Offer(fence, e.cell)))])
  }

  function MergeAll(s: State, entries: seq<Entry>): State {
    if entries == [] then s else MergeOne(MergeAll(s, entries[..|entries| - 1]), entries[|entries| - 1])
  }

  /** Merging gossip bytes: the entries before any fault, and whether there was none. */
  function MergeEncoded(utf8: Utf8, s: State, bytes: seq<byte>): (State, bool) {
    var d := DecodeStore(utf8, bytes);
    (MergeAll(s, d.entries), d.ok)
  }

  /** What was taken and what can still be taken make up the whole. */
  ghost predicate Remaining(utf8: Utf8, done: seq<Entry>, rest: seq<byte>, k: nat, all: Decoded) {
    done + TakeList(utf8, rest, k).entries == all.entries && TakeList(utf8, rest, k).ok == all.ok
  }

  lemma NextTaken(utf8: Utf8, rest: seq<byte>, k: nat, done: seq<Entry>, all: Decoded, e: Entry, b1: seq<byte>)
    requires k > 0 && TakeEntry(utf8, rest) == Some((e, b1)) && Remaining(utf8, done, rest, k, all)
    ensures Remaining(utf8, done + [e], b1, k - 1, all)
  {
    TakeListOne(utf8, rest, k, e, b1);
    Assoc(done, [e], TakeList(utf8, b1, k - 1).entries);
  }

  lemma NothingTaken(utf8: Utf8, done: seq<Entry>, rest: seq<byte>, k: nat, all: Decoded)
    requires k > 0 && TakeEntry(utf8, rest).None? && Remaining(utf8, done, rest, k, all)
    ensures done == all.entries && !all.ok
  {
    TakeListFault(utf8, rest, k);
    assert done + [] == done;
  }

  lemma AllTaken(utf8: Utf8, done: seq<Entry>, rest: seq<byte>, all: Decoded)
    requires Remaining(utf8, done, rest, 0, all)
    ensures done == all.entries && all.ok
  {
    assert done + [] == done;
  }

  /** Reads one entry and says what that leaves. */
  method ReadNext(utf8: Utf8, rest: seq<byte>, ghost k: nat, ghost done: seq<Entry>, ghost all: Decoded)
    returns (e: Option<(Entry, seq<byte>)>)
    requires k > 0 && Remaining(utf8, done, rest, k, all)
    ensures e.Some? ==> Remaining(utf8, done + [e.value.0], e.value.1, k - 1, all)
    ensures e.None? ==> done == all.entries && !all.ok
  {
    e := ReadOne(utf8, rest);
    if e.None? {
      NothingTaken(utf8, done, rest, k, all);
    } else {
      NextTaken(utf8, rest, k, done, all, e.value.0, e.value.1);
    }
  }

  lemma StartTaking(utf8: Utf8, bytes: seq<byte>, n: nat)
    ensures Remaining(utf8, [], bytes, n, TakeList(utf8, bytes, n))
  {
    var r := TakeList(utf8, bytes, n).entries;
    assert [] + r == r;
  }

  lemma MergeAllNext(s: State, done: seq<Entry>, e: Entry)
    ensures MergeAll(s, done + [e]) == MergeOne(MergeAll(s, done), e)
  {
    assert (done + [e])[..|done|] == done;
  }

  class FencedReplica {
    var cells: Store
    var pinned: set<Key>

    ghost function Model(): State
      reads this
    {
      State(cells, pinned)
    }

    constructor ()
      ensures Model() == State(map[], {})
    {
      cells, pinned := map[], {};
    }

    method Pin(k: Key)
      modifies this
      ensures Model() == State(old(cells), old(pinned) + {k})
    {
      pinned := pinned + {k};
    }

    method PutValue(h: HashFn, k: Key, value: seq<byte>, stamp: Timestamp) returns (refused: Option<Refusal>)
      modifies this`cells
      ensures (Model(), refused) == Put(h, old(Model()), k, value, stamp)
    {
      var fence := ORIGIN;
      if k in cells {
        fence := cells[k].fence;
      }
      if !Before(fence, stamp) {
        return Some(BelowFence);
      }
      cells := cells[k := Cell(stamp, h(value), value, fence, false)];
      refused := None;
    }

    method RollbackKey(h: HashFn, k: Key, good: seq<byte>, now: u64) returns (refused: Option<Refusal>)
      modifies this`cells
      ensures (Model(), refused) == Rollback(h, old(Model()), k, good, now)
    {
      if k in pinned {
        return Some(Pinned);
      }
      if k !in cells {
        return Some(NoHistory);
      }
      var fence := Later(cells[k].stamp, cells[k].fence);
      var restored := Timestamp(Max(fence.wall, now), (fence.logical + 1) % 0x1_0000_0000);
      cells := cells[k := Cell(restored, h(good), good, fence, false)];
      refused := None;
    }

    method QuarantineKey(k: Key, now: u64) returns (refused: Option<Refusal>)
      modifies this`cells
      ensures (Model(), refused) == Quarantine(old(Model()), k, now)
    {
      if k in pinned {
        return Some(Pinned);
      }
      if k !in cells {
        return Some(NoHistory);
      }
      var c := cells[k];
      var fence := Timestamp(Max(Max(c.stamp.wall, c.fence.wall), now), (c.stamp.logical + 1) % 0x1_0000_0000);
      c := c.(fence := fence, tombstoned := true, value := [], vhash := ZeroDigest(), stamp := fence);
      cells := cells[k := c];
      refused := None;
    }

    method MergeEntry(e: Entry)
      modifies this`cells
      ensures Model() == MergeOne(old(Model()), e)
    {
      var known := ORIGIN;
      if e.key in cells {
        known := cells[e.key].fence;
      }
      var fence := if e.key in pinned then known else Later(known, e.cell.fence);
      var best: Option<Write> := None;
      if e.key in cells && !cells[e.key].tombstoned && Before(fence, cells[e.key].stamp) {
        best := Some(Write(cells[e.key].stamp, cells[e.key].vhash, cells[e.key].value));
      }
      if !e.cell.tombstoned && Before(fence, e.cell.stamp) {
        var candidate := Write(e.cell.stamp, e.cell.vhash, e.cell.value);
        if best.None? || Beats(candidate, best.value) {
          best := Some(candidate);
        }
      }
      if best.Some? {
        cells := cells[e.key := Cell(best.value.stamp, best.value.vhash, best.value.value, fence, false)];
      } else {
        cells := cells[e.key := Cell(fence, ZeroDigest(), [], fence, true)];
      }
    }

    /** `merge_encoded`: merges entry by entry and stops at the first fault. */
    method MergeBytes(utf8: Utf8, bytes: seq<byte>) returns (ok: bool)
      modifies this`cells
      ensures (Model(), ok) == MergeEncoded(utf8, old(Model()), bytes)
    {
      var head := TakeU32(bytes);
      if head.None? {
        return false;
      }
      ok := MergeRest(utf8, head.value.1, head.value.0);
    }

    method MergeRest(utf8: Utf8, bytes: seq<byte>, n: nat) returns (ok: bool)
      modifies this`cells
      ensures Model() == MergeAll(old(Model()), TakeList(utf8, bytes, n).entries)
      ensures ok == TakeList(utf8, bytes, n).ok
    {
      var rest := bytes;
      ghost var all := TakeList(utf8, bytes, n);
      ghost var done: seq<Entry> := [];
      StartTaking(utf8, bytes, n);
      var left := n;
      while left > 0
        invariant Model() == MergeAll(old(Model()), done)
        invariant Remaining(utf8, done, rest, left, all)
      {
        var e := ReadNext(utf8, rest, left, done, all);
        if e.None? {
          return false;
        }
        MergeAllNext(old(Model()), done, e.value.0);
        MergeEntry(e.value.0);
        done, rest, left := done + [e.value.0], e.value.1, left - 1;
      }
      AllTaken(utf8, done, rest, all);
      ok := true;
    }

    method Get(k: Key) returns (v: Option<seq<byte>>)
      ensures v == Live(Model(), k)
    {
      if k in cells && !cells[k].tombstoned {
        return Some(cells[k].value);
      }
      v := None;
    }
  }

  // ---------- gossip is the join ----------

  ghost predicate DistinctKeys(entries: seq<Entry>) {
    forall i, j :: 0 <= i < j < |entries| ==> entries[i].key != entries[j].key
  }

  /** The store that a list of entries describes. */
  function StoreOf(entries: seq<Entry>): Store {
    if entries == [] then map[] else
      var n := |entries| - 1;
      StoreOf(entries[..n])[entries[n].key := entries[n].cell]
  }

  lemma {:induction false} Unlisted(entries: seq<Entry>, k: Key)
    requires forall i :: 0 <= i < |entries| ==> entries[i].key != k
    ensures k !in StoreOf(entries)
  {
    if entries != [] {
      Unlisted(entries[..|entries| - 1], k);
    }
  }

  ghost predicate AllSound(entries: seq<Entry>) {
    forall i :: 0 <= i < |entries| ==> Sound(entries[i].cell)
  }

  /** The same keys and cells, the keys in `p` aside. */
  ghost predicate AgreeOff(p: set<Key>, s: Store, t: Store) {
    forall k :: k !in p ==> (k in s <==> k in t) && (k in s ==> s[k] == t[k])
  }

  /** Merging the listed cells of another replica is the join, except on the listed keys that are
      pinned here; and those keep their fence. */
  lemma {:induction false} GossipIsJoin(s: State, entries: seq<Entry>)
    requires DistinctKeys(entries) && AllSound(entries)
    ensures MergeAll(s, entries).pinned == s.pinned
    ensures AgreeOff(s.pinned * StoreOf(entries).Keys, MergeAll(s, entries).cells, Join(s.cells, StoreOf(entries)))
    ensures forall k :: k in s.pinned ==> FenceOf(MergeAll(s, entries).cells, k) == FenceOf(s.cells, k)
    decreases |entries|
  {
    if entries != [] {
      var n := |entries| - 1;
      var front, e := entries[..n], entries[n];
      Unlisted(front, e.key);
      GossipIsJoin(s, front);
      JoinOneMore(MergeAll(s, front), s.cells, StoreOf(front), e);
    }
  }

  lemma JoinOneMore(now: State, s: Store, t: Store, e: Entry)
    requires AgreeOff(now.pinned * t.Keys, now.cells, Join(s, t)) && e.key !in t && Sound(e.cell)
    ensures AgreeOff(now.pinned * t[e.key := e.cell].Keys, MergeOne(now, e).cells, Join(s, t[e.key := e.cell]))
  {
    assert e.key in now.cells <==> e.key in s;
  }

  lemma {:induction false} Listed(entries: seq<Entry>, t: Store)
    requires forall i :: 0 <= i < |entries| ==> entries[i].key in t && entries[i].cell == t[entries[i].key]
    ensures forall k :: k in StoreOf(entries) ==> k in t && StoreOf(entries)[k] == t[k]
    ensures forall i :: 0 <= i < |entries| ==> entries[i].key in StoreOf(entries)
    decreases |entries|
  {
    if entries != [] {
      Listed(entries[..|entries| - 1], t);
    }
  }

  /** One gossip message, from `encode` to the last `merge_one`, joins the sender's store into the
      receiver's, the pinned keys aside, which keep their fence. */
  lemma GossipDelivers(utf8: Utf8, s: State, t: Store)
    requires StoreFits(utf8, t) && SoundStore(t)
    ensures var (after, ok) := MergeEncoded(utf8, s, EncodeStore(t));
      && ok && after.pinned == s.pinned && AgreeOff(s.pinned * t.Keys, after.cells, Join(s.cells, t))
      && forall k :: k in s.pinned ==> FenceOf(after.cells, k) == FenceOf(s.cells, k)
  {
    StoreRoundTrip(utf8, t);
    ListingExact(t);
    ListingIsStore(t);
    GossipIsJoin(s, Listing(t));
  }

  // ---------- convergence of encoded gossip ----------

  /** The replica after a sequence of messages, each merged by `merge_encoded`. */
  function Hear(utf8: Utf8, s: State, messages: seq<seq<byte>>): State {
    if messages == [] then s else
      var n := |messages| - 1;
      MergeEncoded(utf8, Hear(utf8, s, messages[..n]), messages[n]).0
  }

  ghost function Messages(gossip: seq<Store>): (m: seq<seq<byte>>)
    ensures |m| == |gossip|
  {
    seq(|gossip|, i requires 0 <= i < |gossip| => EncodeStore(gossip[i]))
  }

  ghost predicate AllFit(utf8: Utf8, gossip: seq<Store>) {
    forall i :: 0 <= i < |gossip| ==> StoreFits(utf8, gossip[i])
  }

  lemma JoinAgrees(p: set<Key>, s: Store, t: Store, g: Store)
    requires AgreeOff(p, s, t)
    ensures AgreeOff(p, Join(s, g), Join(t, g))
  {
  }

  lemma AgreeSteps(p: set<Key>, q: set<Key>, s: Store, t: Store, u: Store)
    requires AgreeOff(p, s, t) && AgreeOff(q, t, u) && p <= q
    ensures AgreeOff(q, s, u)
  {
  }

  /** Hearing encoded states is absorbing them, the pinned keys aside. */
  lemma {:induction false} HearIsAbsorb(h: HashFn, w: Corpus, utf8: Utf8, s: State, gossip: seq<Store>)
    requires AllHonest(h, w, gossip) && AllFit(utf8, gossip)
    ensures Hear(utf8, s, Messages(gossip)).pinned == s.pinned
    ensures AgreeOff(s.pinned, Hear(utf8, s, Messages(gossip)).cells, Absorb(s.cells, gossip))
    decreases |gossip|
  {
    if gossip != [] {
      var n := |gossip| - 1;
      var front, last := gossip[..n], gossip[n];
      HearIsAbsorb(h, w, utf8, s, front);
      assert Messages(gossip)[..n] == Messages(front);
      var before := Hear(utf8, s, Messages(front));
      GossipDelivers(utf8, before, last);
      JoinAgrees(s.pinned, before.cells, Absorb(s.cells, front), last);
      AgreeSteps(s.pinned * last.Keys, s.pinned, Hear(utf8, s, Messages(gossip)).cells, Join(before.cells, last),
                 Absorb(s.cells, gossip));
    }
  }

  /** Replicas whose own states and heard messages come from the same set of stores, in any order
      and with any repeats, end with the same cells on every key that neither has pinned. */
  lemma GossipConverges(h: HashFn, w: Corpus, utf8: Utf8, s: State, xs: seq<Store>, t: State, ys: seq<Store>)
    requires CollisionFree(h, w) && HonestStore(h, w, s.cells) && HonestStore(h, w, t.cells)
    requires AllHonest(h, w, xs) && AllHonest(h, w, ys) && AllFit(utf8, xs) && AllFit(utf8, ys)
    requires forall g :: (g == s.cells || g in xs) <==> (g == t.cells || g in ys)
    ensures AgreeOff(s.pinned + t.pinned, Hear(utf8, s, Messages(xs)).cells, Hear(utf8, t, Messages(ys)).cells)
  {
    Converge(h, w, s.cells, xs, t.cells, ys);
    HearIsAbsorb(h, w, utf8, s, xs);
    HearIsAbsorb(h, w, utf8, t, ys);
  }

  lemma ListingIsStore(t: Store)
    ensures StoreOf(Listing(t)) == t
  {
    ListingExact(t);
    FullList(Listing(t), t);
  }

  lemma FullList(entries: seq<Entry>, t: Store)
    requires forall i :: 0 <= i < |entries| ==> entries[i].key in t && entries[i].cell == t[entries[i].key]
    requires forall k :: k in t ==> exists i :: 0 <= i < |entries| && entries[i].key == k
    ensures StoreOf(entries) == t
  {
    Listed(entries, t);
  }

  // ---------- exactly when the 32-bit counter wraps ----------

  predicate RollbackWraps(c: Cell, now: u64) {
    var fence := Later(c.stamp, c.fence);
    fence.logical == LOGICAL_MAX && now <= fence.wall
  }

  predicate QuarantineWraps(c: Cell, now: u64) {
    c.stamp.logical == LOGICAL_MAX && now <= c.stamp.wall
  }

  /** A rollback always fences out the bad write, and the restored value stands above the new
      fence exactly unless the logical counter wraps. */
  lemma RollbackSoundIff(h: HashFn, c: Cell, value: seq<byte>, now: u64)
    requires Sound(c)
    ensures Sound(RolledBack(h, c, value, now)) <==> !RollbackWraps(c, now)
    ensures !Before(RolledBack(h, c, value, now).fence, c.stamp) && !Before(RolledBack(h, c, value, now).fence, c.fence)
  {
  }

  /** A quarantine keeps the write from coming back by gossip exactly unless the counter wraps. */
  lemma QuarantineHoldsIff(c: Cell, now: u64)
    requires Sound(c) && !c.tombstoned
    ensures Merge(Quarantined(c, now), c).tombstoned <==> !QuarantineWraps(c, now)
    ensures QuarantineWraps(c, now) ==> Merge(Quarantined(c, now), c).value == c.value
  {
    assert c.fence.wall <= c.stamp.wall;
  }

  /** And it lowers the fence exactly when the counter wraps within the fence's own wall tick. */
  lemma QuarantineLowersIff(c: Cell, now: u64)
    requires Sound(c)
    ensures Before(Quarantined(c, now).fence, c.fence)
       <==> QuarantineWraps(c, now) && c.fence.wall == c.stamp.wall && c.fence.logical > 0
  {
    assert c.fence.wall <= c.stamp.wall;
  }

  /** An accepted local write moves up the lattice exactly when it is not older than the live one. */
  lemma PutMovesUpIff(h: HashFn, w: Corpus, c: Cell, value: seq<byte>, stamp: Timestamp)
    requires CollisionFree(h, w) && value in w && Honest(h, w, c) && Before(c.fence, stamp)
    ensures var d := Cell(stamp, h(value), value, c.fence, false);
            Merge(c, d) == d <==> c.tombstoned || !Beats(Write(c.stamp, c.vhash, c.value), Write(stamp, h(value), value))
  {
    BeatsTotal(Write(c.stamp, c.vhash, c.value), Write(stamp, h(value), value));
  }

  // ---------- runs ----------

  datatype Op =
    | PutOp(key: Key, value: seq<byte>, stamp: Timestamp)
    | RollbackOp(key: Key, value: seq<byte>, now: u64)
    | QuarantineOp(key: Key, now: u64)
    | GossipOp(entries: seq<Entry>)
    | PinOp(key: Key)

  function Step(h: HashFn, s: State, op: Op): State {
    match op
    case PutOp(k, v, t) => Put(h, s, k, v, t).0
    case RollbackOp(k, v, now) => Rollback(h, s, k, v, now).0
    case QuarantineOp(k, now) => Quarantine(s, k, now).0
    case GossipOp(entries) => MergeAll(s, entries)
    case PinOp(k) => s.(pinned := s.pinned + {k})
  }

  /** The operation is a rollback of `k` that runs the logical counter over. */
  predicate RollbackWrapsAt(s: State, op: Op, k: Key) {
    op.RollbackOp? && op.key == k && k in s.cells && k !in s.pinned && RollbackWraps(s.cells[k], op.now)
  }

  /** The operation is a quarantine of `k` that runs the counter over within the fence's wall tick. */
  predicate QuarantineWrapsAt(s: State, op: Op, k: Key) {
    && op.QuarantineOp? && op.key == k && k in s.cells && k !in s.pinned && QuarantineWraps(s.cells[k], op.now)
    && s.cells[k].fence.wall == s.cells[k].stamp.wall && s.cells[k].fence.logical > 0
  }

  ghost predicate SoundAt(s: Store, k: Key) {
    k in s ==> Sound(s[k])
  }

  lemma {:induction false} MergeAllKeeps(s: State, entries: seq<Entry>, k: Key)
    requires SoundAt(s.cells, k)
    ensures SoundAt(MergeAll(s, entries).cells, k) && !Before(FenceOf(MergeAll(s, entries).cells, k), FenceOf(s.cells, k))
    decreases |entries|
  {
    if entries != [] {
      MergeAllKeeps(s, entries[..|entries| - 1], k);
    }
  }

  /** From a sound cell every operation, whatever gossip brings, leaves a sound cell exactly unless
      it is a wrapping rollback, and keeps the fence from falling exactly unless it is a quarantine
      that wraps within the fence's wall tick. */
  lemma StepKeeps(h: HashFn, s: State, op: Op, k: Key)
    requires SoundAt(s.cells, k)
    ensures SoundAt(Step(h, s, op).cells, k) <==> !RollbackWrapsAt(s, op, k)
    ensures Before(FenceOf(Step(h, s, op).cells, k), FenceOf(s.cells, k)) <==> QuarantineWrapsAt(s, op, k)
  {
    match op
    case GossipOp(entries) => MergeAllKeeps(s, entries, k);
    case RollbackOp(key, v, now) =>
      if key == k && k in s.cells {
        RollbackSoundIff(h, s.cells[k], v, now);
      }
    case QuarantineOp(key, now) =>
      if key == k && k in s.cells {
        QuarantineLowersIff(s.cells[k], now);
      }
    case _ =>
  }

  /** States joined by operations, starting from the empty replica. */
  ghost predicate IsRun(h: HashFn, states: seq<State>, ops: seq<Op>) {
    && |states| == |ops| + 1 && states[0] == State(map[], {})
    && forall i :: 0 <= i < |ops| ==> states[i + 1] == Step(h, states[i], ops[i])
  }

  /** One of the first j operations was a rollback of `k` that ran the counter over. */
  ghost predicate RolledOver(states: seq<State>, ops: seq<Op>, k: Key, j: nat)
    requires |states| == |ops| + 1 && j <= |ops|
  {
    exists m :: 0 <= m < j && RollbackWrapsAt(states[m], ops[m], k)
  }

  /** One of the operations from i up to j was a quarantine of `k` that lowered its fence. */
  ghost predicate FenceLost(states: seq<State>, ops: seq<Op>, k: Key, i: nat, j: nat)
    requires |states| == |ops| + 1 && j <= |ops|
  {
    exists m :: i <= m < j && QuarantineWrapsAt(states[m], ops[m], k)
  }

  /** In every run a cell is sound until a rollback of its key runs the counter over. */
  lemma {:induction false} RunKeeps(h: HashFn, states: seq<State>, ops: seq<Op>, j: nat, k: Key)
    requires IsRun(h, states, ops) && j < |states|
    ensures RolledOver(states, ops, k, j) || SoundAt(states[j].cells, k)
  {
    if j > 0 && !RolledOver(states, ops, k, j) {
      RunKeeps(h, states, ops, j - 1, k);
      StepKeeps(h, states[j - 1], ops[j - 1], k);
      assert !RollbackWrapsAt(states[j - 1], ops[j - 1], k);
    }
  }

  /** And a fence stands or rises, unless the counter runs over. */
  lemma {:induction false} RunFencesRise(h: HashFn, states: seq<State>, ops: seq<Op>, i: nat, j: nat, k: Key)
    requires IsRun(h, states, ops) && i <= j < |states|
    ensures || RolledOver(states, ops, k, j) || FenceLost(states, ops, k, i, j)
            || !Before(FenceOf(states[j].cells, k), FenceOf(states[i].cells, k))
    decreases j - i
  {
    if i < j && !RolledOver(states, ops, k, j) && !FenceLost(states, ops, k, i, j) {
      RunFencesRise(h, states, ops, i, j - 1, k);
      RunKeeps(h, states, ops, j - 1, k);
      StepKeeps(h, states[j - 1], ops[j - 1], k);
      assert !QuarantineWrapsAt(states[j - 1], ops[j - 1], k);
    }
  }

  /** Once a fence is learned, no write at or below it is live again, for ever, whatever is put,
      rolled back, quarantined, pinned or heard, unless the counter runs over. */
  lemma NoResurrection(h: HashFn, states: seq<State>, ops: seq<Op>, i: nat, j: nat, k: Key, stamp: Timestamp)
    requires IsRun(h, states, ops) && i <= j < |states|
    requires !Before(FenceOf(states[i].cells, k), stamp)
    ensures || RolledOver(states, ops, k, j) || FenceLost(states, ops, k, i, j)
            || (k in states[j].cells && !states[j].cells[k].tombstoned ==> Before(stamp, states[j].cells[k].stamp))
  {
    if !RolledOver(states, ops, k, j) {
      RunKeeps(h, states, ops, j, k);
      RunFencesRise(h, states, ops, i, j, k);
    }
  }

  /** When the counter does run over: a value put at the last logical tick and then quarantined
      within that wall tick is live again once the same write is heard by gossip. */
  lemma WrapResurrects(h: HashFn, k: Key, value: seq<byte>, wall: u64, now: u64)
    returns (states: seq<State>, ops: seq<Op>)
    requires now <= wall
    ensures IsRun(h, states, ops) && |ops| == 3
    ensures ops[0] == PutOp(k, value, Timestamp(wall, 0xffff_ffff)) && ops[1] == QuarantineOp(k, now)
    ensures k in states[1].cells && ops[2] == GossipOp([Entry(k, states[1].cells[k])])
    ensures k in states[2].cells && states[2].cells[k].tombstoned
    ensures k in states[3].cells && !states[3].cells[k].tombstoned && states[3].cells[k].value == value
  {
    var cell := Cell(Timestamp(wall, 0xffff_ffff), h(value), value, ORIGIN, false);
    var fence := Timestamp(wall, 0);
    var one := State(map[k := cell], {});
    var two := State(map[k := Cell(fence, ZeroDigest(), [], fence, true)], {});
    var three := State(map[k := cell.(fence := fence)], {});
    ops := [PutOp(k, value, Timestamp(wall, 0xffff_ffff)), QuarantineOp(k, now), GossipOp([Entry(k, cell)])];
    states := [State(map[], {}), one, two, three];
    assert Quarantined(cell, now) == two.cells[k];
    MergeAllNext(two, [], Entry(k, cell));
    assert [] + [Entry(k, cell)] == [Entry(k, cell)];
  }

  ghost predicate HonestOp(h: HashFn, w: Corpus, op: Op) {
    match op
    case PutOp(_, value, _) => value in w
    case RollbackOp(_, value, _) => value in w
    case GossipOp(entries) => forall i :: 0 <= i < |entries| ==> Honest(h, w, entries[i].cell)
    case _ => true
  }

  ghost predicate HonestAt(h: HashFn, w: Corpus, s: Store, k: Key) {
    k in s ==> Honest(h, w, s[k])
  }

  lemma {:induction false} MergeAllHonest(h: HashFn, w: Corpus, s: State, entries: seq<Entry>, k: Key)
    requires HonestAt(h, w, s.cells, k) && forall i :: 0 <= i < |entries| ==> Honest(h, w, entries[i].cell)
    ensures HonestAt(h, w, MergeAll(s, entries).cells, k)
    decreases |entries|
  {
    if entries != [] {
      MergeAllHonest(h, w, s, entries[..|entries| - 1], k);
    }
  }

  /** Replicas that only hear honest cells stay honest, as convergence asks, until a rollback runs
      the counter over. */
  lemma {:induction false} RunHonest(h: HashFn, w: Corpus, states: seq<State>, ops: seq<Op>, j: nat, k: Key)
    requires IsRun(h, states, ops) && j < |states| && forall i :: 0 <= i < |ops| ==> HonestOp(h, w, ops[i])
    ensures RolledOver(states, ops, k, j) || HonestAt(h, w, states[j].cells, k)
  {
    if j > 0 && !RolledOver(states, ops, k, j) {
      RunHonest(h, w, states, ops, j - 1, k);
      assert !RollbackWrapsAt(states[j - 1], ops[j - 1], k);
      StepHonest(h, w, states[j - 1], ops[j - 1], k);
    }
  }

  lemma StepHonest(h: HashFn, w: Corpus, s: State, op: Op, k: Key)
    requires HonestAt(h, w, s.cells, k) && !RollbackWrapsAt(s, op, k) && HonestOp(h, w, op)
    ensures HonestAt(h, w, Step(h, s, op).cells, k)
  {
    StepKeeps(h, s, op, k);
    if op.GossipOp? {
      MergeAllHonest(h, w, s, op.entries, k);
    }
  }

  // ---------- what is read back ----------

  /** `get`. */
  function Live(s: State, k: Key): Option<seq<byte>> {
    if k in s.cells && !s.cells[k].tombstoned then Some(s.cells[k].value) else None
  }

  /** Only the cell of k may differ. */
  ghost predicate OnlyAt(s: State, s': State, k: Key) {
    && s'.pinned == s.pinned && s'.cells.Keys == s.cells.Keys + {k}
    && forall x :: x in s.cells && x != k ==> s'.cells[x] == s.cells[x]
  }

  /** This write is the live one of k, above its fence. */
  ghost predicate Holds(s: State, k: Key, w: Write) {
    && k in s.cells && !s.cells[k].tombstoned && Before(s.cells[k].fence, w.stamp)
    && s.cells[k].stamp == w.stamp && s.cells[k].vhash == w.vhash && s.cells[k].value == w.value
  }

  /** A put above the fence stores its value, whatever stood there, and keeps the fence; one at or
      below it is refused and changes nothing. */
  lemma PutStores(h: HashFn, s: State, k: Key, value: seq<byte>, stamp: Timestamp, s': State, refused: Option<Refusal>)
    requires (s', refused) == Put(h, s, k, value, stamp)
    ensures refused.None? <==> Before(FenceOf(s.cells, k), stamp)
    ensures refused.Some? ==> s' == s && refused.value == BelowFence
    ensures refused.None? ==> OnlyAt(s, s', k) && Holds(s', k, Write(stamp, h(value), value)) && Live(s', k) == Some(value)
    ensures FenceOf(s'.cells, k) == FenceOf(s.cells, k)
  {
  }

  /** A rollback of a known key that is not pinned puts the good value back, under a fence that shuts
      out the write it replaces; any other is refused and changes nothing. */
  lemma RollbackRestores(h: HashFn, s: State, k: Key, good: seq<byte>, now: u64, s': State, refused: Option<Refusal>)
    requires (s', refused) == Rollback(h, s, k, good, now)
    ensures refused == if k in s.pinned then Some(Pinned) else if k !in s.cells then Some(NoHistory) else None
    ensures refused.Some? ==> s' == s
    ensures refused.None? ==>
      && OnlyAt(s, s', k) && Live(s', k) == Some(good) && s'.cells[k].vhash == h(good)
      && s'.cells[k].fence == Later(s.cells[k].stamp, s.cells[k].fence)
      && (!RollbackWraps(s.cells[k], now) ==> Holds(s', k, Write(s'.cells[k].stamp, h(good), good)))
  {
  }

  /** And unless the counter wraps, the good value survives meeting the cell it replaced again, on
      either side. */
  lemma RollbackWins(h: HashFn, c: Cell, good: seq<byte>, now: u64)
    requires !RollbackWraps(c, now)
    ensures Merge(RolledBack(h, c, good, now), c) == RolledBack(h, c, good, now)
    ensures Merge(c, RolledBack(h, c, good, now)) == RolledBack(h, c, good, now)
  {
  }

  /** A quarantine of a known key that is not pinned leaves nothing to read; any other is refused. */
  lemma QuarantineEmpties(s: State, k: Key, now: u64, s': State, refused: Option<Refusal>)
    requires (s', refused) == Quarantine(s, k, now)
    ensures refused == if k in s.pinned then Some(Pinned) else if k !in s.cells then Some(NoHistory) else None
    ensures refused.Some? ==> s' == s
    ensures refused.None? ==> OnlyAt(s, s', k) && Live(s', k) == None && s'.cells[k].fence.wall >= now
  {
  }

  /** The operation does not touch the live write of k: it is about another key, or it is gossip with
      no fence at or above that write and none that beats it. */
  ghost predicate Spares(op: Op, k: Key, w: Write) {
    match op
    case PutOp(key, _, _) => key != k
    case RollbackOp(key, _, _) => key != k
    case QuarantineOp(key, _) => key != k
    case PinOp(_) => true
    case GossipOp(entries) => forall i :: 0 <= i < |entries| ==> SparedBy(entries[i], k, w)
  }

  predicate SparedBy(e: Entry, k: Key, w: Write) {
    e.key == k ==> Before(e.cell.fence, w.stamp)
                   && (e.cell.tombstoned || !Beats(Write(e.cell.stamp, e.cell.vhash, e.cell.value), w))
  }

  lemma MergeOneHolds(s: State, e: Entry, k: Key, w: Write)
    requires Holds(s, k, w) && SparedBy(e, k, w)
    ensures Holds(MergeOne(s, e), k, w)
  {
  }

  lemma {:induction false} MergeAllHolds(s: State, entries: seq<Entry>, k: Key, w: Write)
    requires Holds(s, k, w) && forall i :: 0 <= i < |entries| ==> SparedBy(entries[i], k, w)
    ensures Holds(MergeAll(s, entries), k, w)
    decreases |entries|
  {
    if entries != [] {
      var n := |entries| - 1;
      MergeAllHolds(s, entries[..n], k, w);
      MergeOneHolds(MergeAll(s, entries[..n]), entries[n], k, w);
    }
  }

  lemma StepHolds(h: HashFn, s: State, op: Op, k: Key, w: Write)
    requires Holds(s, k, w) && Spares(op, k, w)
    ensures Holds(Step(h, s, op), k, w)
  {
    if op.GossipOp? {
      MergeAllHolds(s, op.entries, k, w);
    }
  }

  /** In every run a live write stays the live one as long as it is spared. */
  lemma {:induction false} RunHolds(h: HashFn, states: seq<State>, ops: seq<Op>, i: nat, j: nat, k: Key, w: Write)
    requires IsRun(h, states, ops) && i <= j < |states| && Holds(states[i], k, w)
    requires forall m :: i <= m < j ==> Spares(ops[m], k, w)
    ensures Holds(states[j], k, w)
    decreases j - i
  {
    if i < j {
      RunHolds(h, states, ops, i, j - 1, k, w);
      StepHolds(h, states[j - 1], ops[j - 1], k, w);
    }
  }

  /** After a rollback of k the good value is what is read, until k is put, rolled back or quarantined
      again or gossip brings a later write or fence; unless the counter wraps. */
  lemma RolledBackForNow(h: HashFn, states: seq<State>, ops: seq<Op>, i: nat, j: nat, k: Key, good: seq<byte>, now: u64)
    returns (w: Write)
    requires IsRun(h, states, ops) && i < j < |states| && ops[i] == RollbackOp(k, good, now)
    requires k in states[i].cells && k !in states[i].pinned && !RollbackWraps(states[i].cells[k], now)
    ensures w.value == good && w.vhash == h(good) && Before(states[i].cells[k].stamp, w.stamp)
    ensures (forall m :: i < m < j ==> Spares(ops[m], k, w)) ==> Live(states[j], k) == Some(good)
  {
    var (s', refused) := Rollback(h, states[i], k, good, now);
    RollbackRestores(h, states[i], k, good, now, s', refused);
    assert states[i + 1] == s';
    w := Write(s'.cells[k].stamp, h(good), good);
    if forall m :: i < m < j ==> Spares(ops[m], k, w) {
      RunHolds(h, states, ops, i + 1, j, k, w);
    }
  }

  /** And a value put above the fence is what is read, likewise. */
  lemma PutForNow(h: HashFn, states: seq<State>, ops: seq<Op>, i: nat, j: nat, k: Key, value: seq<byte>, stamp: Timestamp)
    requires IsRun(h, states, ops) && i < j < |states| && ops[i] == PutOp(k, value, stamp)
    requires Before(FenceOf(states[i].cells, k), stamp)
    requires forall m :: i < m < j ==> Spares(ops[m], k, Write(stamp, h(value), value))
    ensures Live(states[j], k) == Some(value)
  {
    var (s', refused) := Put(h, states[i], k, value, stamp);
    PutStores(h, states[i], k, value, stamp, s', refused);
    assert states[i + 1] == s';
    RunHolds(h, states, ops, i + 1, j, k, Write(stamp, h(value), value));
  }
}
