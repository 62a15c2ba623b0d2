/** The fenced replicated store of `consistency.rs`: one key's cell, and its merge as a join. */
module Fence {
  import opened Bytes
  import opened Lex

  /** A hybrid logical clock reading, ordered by wall clock first. */
  datatype Timestamp = Timestamp(wall: u64, logical: u32)

  const ORIGIN := Timestamp(0, 0)

  predicate Before(a: Timestamp, b: Timestamp) {
    a.wall < b.wall || (a.wall == b.wall && a.logical < b.logical)
  }

  function Later(a: Timestamp, b: Timestamp): Timestamp {
    if Before(a, b) then b else a
  }

  // ---------- cells ----------

  datatype Cell = Cell(stamp: Timestamp, vhash: Digest, value: seq<byte>, fence: Timestamp, tombstoned: bool)

  type Key = seq<byte>
  type Store = map<Key, Cell>

  /** A cell as it travels, with its key. */
  datatype Entry = Entry(key: Key, cell: Cell)

  /** What every operation leaves: a live value strictly above its fence, or an empty cell at it. */
  ghost predicate Sound(c: Cell) {
    if c.tombstoned then c.stamp == c.fence && c.value == [] && c.vhash == ZeroDigest()
    else Before(c.fence, c.stamp)
  }

  /** Sound, and the digest is that of the value, which is one of the words in play. */
  ghost predicate Honest(h: HashFn, w: Corpus, c: Cell) {
    Sound(c) && (!c.tombstoned ==> c.value in w && c.vhash == h(c.value))
  }

  /** A cell as the lattice sees it: a fence and at most one write above it. */
  datatype Write = Write(stamp: Timestamp, vhash: Digest, value: seq<byte>)

  predicate Beats(x: Write, y: Write) {
    Before(y.stamp, x.stamp) || (x.stamp == y.stamp && LexLess(y.vhash, x.vhash))
  }

  lemma BeatsTotal(x: Write, y: Write)
    ensures Beats(x, y) || Beats(y, x) || (x.stamp == y.stamp && x.vhash == y.vhash)
    ensures !(Beats(x, y) && Beats(y, x))
    ensures x.stamp == y.stamp && x.vhash == y.vhash ==> !Beats(x, y)
  {
    LexTotal(x.vhash, y.vhash);
  }

  lemma BeatsTransitive(x: Write, y: Write, z: Write)
    requires Beats(x, y) && Beats(y, z)
    ensures Beats(x, z)
  {
    if x.stamp == y.stamp == z.stamp {
      LexTransitive(z.vhash, y.vhash, x.vhash);
    }
  }

  /** The write a cell offers, unless the fence shuts it out. */
  function Offer(fence: Timestamp, c: Cell): Option<Write> {
    if c.tombstoned || !Before(fence, c.stamp) then None else Some(Write(c.stamp, c.vhash, c.value))
  }

  /** The first write, unless the second beats it. */
  function Best(x: Option<Write>, y: Option<Write>): Option<Write> {
    if x.None? then y else if y.Some? && Beats(y.value, x.value) then y else x
  }

  function Settle(fence: Timestamp, w: Option<Write>): Cell {
    if w.Some? then Cell(w.value.stamp, w.value.vhash, w.value.value, fence, false)
    else Cell(fence, ZeroDigest(), [], fence, true)
  }

  /** `merge_one` on an unpinned key whose cell is `a`. */
  function Merge(a: Cell, b: Cell): Cell {
    var fence := Later(a.fence, b.fence);
    Settle(fence, Best(Offer(fence, a), Offer(fence, b)))
  }

  /** Merging keeps cells sound whatever comes in, and never lowers a fence. */
  lemma MergeSound(a: Cell, b: Cell)
    ensures Sound(Merge(a, b))
    ensures Merge(a, b).fence == Later(a.fence, b.fence)
  {
  }

  lemma MergeHonest(h: HashFn, w: Corpus, a: Cell, b: Cell)
    requires Honest(h, w, a) && Honest(h, w, b)
    ensures Honest(h, w, Merge(a, b))
  {
  }

  // ---------- the join laws ----------

  /** Equal stamps and digests mean equal writes. */
  ghost predicate Agree(x: Option<Write>, y: Option<Write>) {
    x.Some? && y.Some? && x.value.stamp == y.value.stamp && x.value.vhash == y.value.vhash ==> x == y
  }

  lemma BestCommutes(x: Option<Write>, y: Option<Write>)
    requires Agree(x, y)
    ensures Best(x, y) == Best(y, x)
  {
    if x.Some? && y.Some? {
      BeatsTotal(x.value, y.value);
    }
  }

  lemma BestAssociates(x: Option<Write>, y: Option<Write>, z: Option<Write>)
    requires Agree(x, y) && Agree(y, z) && Agree(x, z)
    ensures Best(Best(x, y), z) == Best(x, Best(y, z))
  {
    if x.Some? && y.Some? && z.Some? {
      BeatsTotal(x.value, y.value);
      BeatsTotal(y.value, z.value);
      BeatsTotal(x.value, z.value);
      if Beats(y.value, x.value) && Beats(z.value, y.value) {
        BeatsTransitive(z.value, y.value, x.value);
      }
      if Beats(x.value, y.value) && Beats(y.value, z.value) {
        BeatsTransitive(x.value, y.value, z.value);
      }
    }
  }

  /** Fencing commutes with choosing: when the best is shut out, so is the other. */
  lemma FenceBest(f: Timestamp, g: Timestamp, a: Cell, b: Cell)
    requires !Before(g, f)
    ensures Offer(g, Settle(f, Best(Offer(f, a), Offer(f, b)))) == Best(Offer(g, a), Offer(g, b))
  {
    if Offer(f, a).Some? && Offer(f, b).Some? {
      BeatsTotal(Offer(f, a).value, Offer(f, b).value);
    }
  }

  lemma OffersAgree(h: HashFn, w: Corpus, f: Timestamp, a: Cell, b: Cell)
    requires CollisionFree(h, w) && Honest(h, w, a) && Honest(h, w, b)
    ensures Agree(Offer(f, a), Offer(f, b))
  {
  }

  lemma MergeIdempotent(a: Cell)
    requires Sound(a)
    ensures Merge(a, a) == a
  {
    LexTotal(a.vhash, a.vhash);
  }

  lemma MergeCommutes(h: HashFn, w: Corpus, a: Cell, b: Cell)
    requires CollisionFree(h, w) && Honest(h, w, a) && Honest(h, w, b)
    ensures Merge(a, b) == Merge(b, a)
  {
    var fence := Later(a.fence, b.fence);
    OffersAgree(h, w, fence, a, b);
    BestCommutes(Offer(fence, a), Offer(fence, b));
  }

  lemma MergeAssociates(h: HashFn, w: Corpus, a: Cell, b: Cell, c: Cell)
    requires CollisionFree(h, w) && Honest(h, w, a) && Honest(h, w, b) && Honest(h, w, c)
    ensures Merge(Merge(a, b), c) == Merge(a, Merge(b, c))
  {
    var fence := Later(Later(a.fence, b.fence), c.fence);
    FenceBest(Later(a.fence, b.fence), fence, a, b);
    FenceBest(Later(b.fence, c.fence), fence, b, c);
    OffersAgree(h, w, fence, a, b);
    OffersAgree(h, w, fence, b, c);
    OffersAgree(h, w, fence, a, c);
    BestAssociates(Offer(fence, a), Offer(fence, b), Offer(fence, c));
  }

  // ---------- which write wins ----------

  /** A clock reading as one number. */
  function Clock(t: Timestamp): nat { 0x1_0000_0000 * t.wall as int + t.logical }

  lemma BeforeIsClock(a: Timestamp, b: Timestamp)
    ensures Before(a, b) <==> Clock(a) < Clock(b)
    ensures Clock(Later(a, b)) == Max(Clock(a), Clock(b)) && (Later(a, b) == a || Later(a, b) == b)
  {
  }

  /** The cell carries this write, above the merged fence. */
  predicate Offers(c: Cell, fence: nat) { !c.tombstoned && Clock(c.stamp) > fence }

  predicate Carries(m: Cell, c: Cell) {
    !m.tombstoned && m.stamp == c.stamp && m.vhash == c.vhash && m.value == c.value
  }

  /** The merged fence is the higher one. Of the writes above it the later wins, and of two at one time
      the one with the greater digest; the first stands if neither is greater. With none the key is
      empty at the fence. */
  lemma LaterWins(a: Cell, b: Cell)
    ensures var m, f := Merge(a, b), Max(Clock(a.fence), Clock(b.fence));
      && Clock(m.fence) == f
      && (Offers(a, f) && Offers(b, f) ==>
          if Clock(a.stamp) < Clock(b.stamp) || (a.stamp == b.stamp && FromBE(a.vhash) < FromBE(b.vhash)) then Carries(m, b) else Carries(m, a))
      && (Offers(a, f) && !Offers(b, f) ==> Carries(m, a)) && (!Offers(a, f) && Offers(b, f) ==> Carries(m, b))
      && (!Offers(a, f) && !Offers(b, f) ==> m == Cell(m.fence, ZeroDigest(), [], m.fence, true))
  {
    BeforeIsClock(a.fence, b.fence);
    BeforeIsClock(Later(a.fence, b.fence), a.stamp);
    BeforeIsClock(Later(a.fence, b.fence), b.stamp);
    BeforeIsClock(a.stamp, b.stamp);
    BeforeIsClock(b.stamp, a.stamp);
    LexIsNumber(a.vhash, b.vhash);
  }
}
