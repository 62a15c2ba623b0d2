/** The capability airlock (`airlock.rs`): sanitised transfers and their hash-chained ledger. */
module Airlock {
  import opened Bytes
  import opened Capability

  datatype Domain = System | Personal | Financial | Medical | Infrastructure | Development | AiAgent | ExternalNetwork

  function Code(d: Domain): byte {
    match d
    case System => 0
    case Personal => 1
    case Financial => 2
    case Medical => 3
    case Infrastructure => 4
    case Development => 5
    case AiAgent => 6
    case ExternalNetwork => 7
  }

  /** The codes are the positions in the declaration. */
  lemma CodesInOrder()
    ensures Code(System) == 0 && Code(Personal) == Code(System) + 1 && Code(Financial) == Code(Personal) + 1
    ensures Code(Medical) == Code(Financial) + 1 && Code(Infrastructure) == Code(Medical) + 1
    ensures Code(Development) == Code(Infrastructure) + 1 && Code(AiAgent) == Code(Development) + 1
    ensures Code(ExternalNetwork) == Code(AiAgent) + 1
  {
  }

  datatype Refusal = NoPolicy | InsufficientApprovals | InvalidCapability | Contained

  datatype Record = Record(sequence: u64, from: Domain, to: Domain, granted: Rights, expires: Option<u64>,
                           provenance: Digest, chain: Digest)

  datatype Policy = Policy(from: Domain, to: Domain, maxRights: Rights, ttl: Option<u64>, approvals: u32)

  datatype Issued = Issued(cap: Cap, expires: Option<u64>)

  // ---------- the ledger ----------

  /** "airlock-genesis". */
  const GENESIS: seq<byte> := [97, 105, 114, 108, 111, 99, 107, 45, 103, 101, 110, 101, 115, 105, 115]

  /** "containment". */
  const CONTAINMENT: seq<byte> := [99, 111, 110, 116, 97, 105, 110, 109, 101, 110, 116]

  lemma TagsSpelled()
    ensures Spells(GENESIS, "airlock-genesis") && Spells(CONTAINMENT, "containment")
  {
  }

  function ExpiryBytes(t: Option<u64>): seq<byte> {
    if t.Some? then [1] + LE(t.value, 8) else [0]
  }

  /** What a record's chain digest covers. */
  function ChainInput(prev: Digest, r: Record): seq<byte> {
    prev + LE(r.sequence, 8) + [Code(r.from), Code(r.to)] + LE(r.granted, 4) + r.provenance + ExpiryBytes(r.expires)
  }

  /** `forensic_snapshot`. */
  function Snapshot(h: HashFn, ledger: seq<Record>): Digest {
    if ledger == [] then h(GENESIS) else ledger[|ledger| - 1].chain
  }

  /** Every record's digest covers its fields and the digest before it. */
  ghost predicate Intact(h: HashFn, ledger: seq<Record>) {
    forall i :: 0 <= i < |ledger| ==> Linked(h, ledger, i)
  }

  predicate Linked(h: HashFn, ledger: seq<Record>, i: nat)
    requires i < |ledger|
  {
    ledger[i].chain == h(ChainInput(Snapshot(h, ledger[..i]), ledger[i]))
  }

  /** Records carry their position. */
  ghost predicate Numbered(ledger: seq<Record>) {
    forall i :: 0 <= i < |ledger| ==> ledger[i].sequence == i % 0x1_0000_0000_0000_0000
  }

  lemma IntactPrefix(h: HashFn, ledger: seq<Record>, n: nat)
    requires Intact(h, ledger) && n <= |ledger|
    ensures Intact(h, ledger[..n])
  {
    forall i | 0 <= i < n
      ensures Linked(h, ledger[..n], i)
    {
      assert Linked(h, ledger, i) && ledger[..n][..i] == ledger[..i];
    }
  }

  /** The record appended after `ledger`. */
  function NextRecord(h: HashFn, ledger: seq<Record>, from: Domain, to: Domain, granted: Rights, expires: Option<u64>,
                      provenance: Digest): Record
  {
    var r := Record(|ledger| % 0x1_0000_0000_0000_0000, from, to, granted, expires, provenance, ZeroDigest());
    r.(chain := h(ChainInput(Snapshot(h, ledger), r)))
  }

  lemma AppendKeepsIntact(h: HashFn, ledger: seq<Record>, from: Domain, to: Domain, granted: Rights,
                          expires: Option<u64>, provenance: Digest)
    requires Intact(h, ledger)
    ensures Intact(h, ledger + [NextRecord(h, ledger, from, to, granted, expires, provenance)])
  {
    var all := ledger + [NextRecord(h, ledger, from, to, granted, expires, provenance)];
    forall i | 0 <= i < |all|
      ensures Linked(h, all, i)
    {
      if i < |ledger| {
        assert Linked(h, ledger, i) && all[..i] == ledger[..i];
      } else {
        assert all[..i] == ledger;
      }
    }
  }

  /** The bytes hashed determine the record and what came before. */
  lemma ChainInputInjective(prev: Digest, r: Record, prev': Digest, r': Record)
    requires ChainInput(prev, r) == ChainInput(prev', r')
    ensures prev == prev' && r.(chain := ZeroDigest()) == r'.(chain := ZeroDigest())
  {
    var s, s' := ChainInput(prev, r), ChainInput(prev', r');
    Widths();
    assert s[..32] == prev && s'[..32] == prev';
    assert s[32..40] == LE(r.sequence, 8) && s'[32..40] == LE(r'.sequence, 8);
    LEInjective(r.sequence, r'.sequence, 8);
    assert s[40] == Code(r.from) && s'[40] == Code(r'.from) && s[41] == Code(r.to) && s'[41] == Code(r'.to);
    assert s[42..46] == LE(r.granted, 4) && s'[42..46] == LE(r'.granted, 4);
    LEInjective(r.granted, r'.granted, 4);
    assert s[46..78] == r.provenance && s'[46..78] == r'.provenance;
    assert s[78..] == ExpiryBytes(r.expires) && s'[78..] == ExpiryBytes(r'.expires);
    ExpiryInjective(r.expires, r'.expires);
  }

  lemma ExpiryInjective(t: Option<u64>, t': Option<u64>)
    requires ExpiryBytes(t) == ExpiryBytes(t')
    ensures t == t'
  {
    Widths();
    assert ExpiryBytes(t)[0] == ExpiryBytes(t')[0];
    if t.Some? {
      assert ExpiryBytes(t)[1..] == LE(t.value, 8) && ExpiryBytes(t')[1..] == LE(t'.value, 8);
      LEInjective(t.value, t'.value, 8);
    }
  }

  lemma NotGenesis(prev: Digest, r: Record)
    ensures ChainInput(prev, r) != GENESIS
  {
    assert |ChainInput(prev, r)| > |GENESIS|;
  }

  /** These bytes were hashed to build the chain of this ledger. */
  ghost predicate HashedBy(h: HashFn, ledger: seq<Record>, s: seq<byte>) {
    exists k :: 0 <= k <= |ledger| && s == LastInput(h, ledger[..k])
  }

  lemma LastHashedBy(h: HashFn, ledger: seq<Record>)
    ensures HashedBy(h, ledger, LastInput(h, ledger))
  {
    assert ledger[..|ledger|] == ledger;
  }

  lemma HashedBefore(h: HashFn, ledger: seq<Record>, n: nat, s: seq<byte>)
    requires n <= |ledger| && HashedBy(h, ledger[..n], s)
    ensures HashedBy(h, ledger, s)
  {
    var k :| 0 <= k <= n && s == LastInput(h, ledger[..n][..k]);
    assert ledger[..n][..k] == ledger[..k];
  }

  /** The hash collides on two strings, one hashed to build the chain of each ledger. */
  ghost predicate ChainsCollide(h: HashFn, a: seq<Record>, b: seq<Record>, x: seq<byte>, y: seq<byte>) {
    Collide(h, x, y) && HashedBy(h, a, x) && HashedBy(h, b, y)
  }

  lemma CollideLater(h: HashFn, a: seq<Record>, b: seq<Record>, m: nat, n: nat, x: seq<byte>, y: seq<byte>)
    requires m <= |a| && n <= |b| && ChainsCollide(h, a[..m], b[..n], x, y)
    ensures ChainsCollide(h, a, b, x, y)
  {
    HashedBefore(h, a, m, x);
    HashedBefore(h, b, n, y);
  }

  /** Different last inputs with one digest collide. */
  lemma LastInputsCollide(h: HashFn, a: seq<Record>, b: seq<Record>)
    requires Intact(h, a) && Intact(h, b) && Snapshot(h, a) == Snapshot(h, b) && LastInput(h, a) != LastInput(h, b)
    ensures ChainsCollide(h, a, b, LastInput(h, a), LastInput(h, b))
  {
    LastInputDigest(h, a);
    LastInputDigest(h, b);
    LastHashedBy(h, a);
    LastHashedBy(h, b);
  }

  /** Equal snapshots of intact ledgers mean equal ledgers, with the same records in the same order
      and of the same length; or the chains collide. */
  lemma {:induction false} SnapshotBinds(h: HashFn, a: seq<Record>, b: seq<Record>)
    returns (x: seq<byte>, y: seq<byte>)
    requires Intact(h, a) && Intact(h, b) && Snapshot(h, a) == Snapshot(h, b)
    ensures a == b || ChainsCollide(h, a, b, x, y)
    decreases |a|
  {
    if LastInput(h, a) != LastInput(h, b) {
      x, y := LastInput(h, a), LastInput(h, b);
      LastInputsCollide(h, a, b);
    } else if a == [] {
      x, y := [], [];
      EmptyLast(h, b);
    } else {
      SameLast(h, a, b);
      var m, n := |a| - 1, |b| - 1;
      IntactPrefix(h, a, m);
      IntactPrefix(h, b, n);
      x, y := SnapshotBinds(h, a[..m], b[..n]);
      if a[..m] == b[..n] {
        SameEnds(a, b);
      } else {
        CollideLater(h, a, b, m, n, x, y);
      }
    }
  }

  lemma EmptyLast(h: HashFn, b: seq<Record>)
    ensures LastInput(h, b) == GENESIS ==> b == []
  {
    if b != [] {
      NotGenesis(Snapshot(h, b[..|b| - 1]), b[|b| - 1]);
    }
  }

  lemma SameEnds(a: seq<Record>, b: seq<Record>)
    requires a != [] && b != [] && a[..|a| - 1] == b[..|b| - 1] && a[|a| - 1] == b[|b| - 1]
    ensures a == b
  {
    assert a == a[..|a| - 1] + [a[|a| - 1]] && b == b[..|b| - 1] + [b[|b| - 1]];
  }

  /** The same last input means the same last record and the same snapshot before it. */
  lemma SameLast(h: HashFn, a: seq<Record>, b: seq<Record>)
    requires Intact(h, a) && Intact(h, b) && a != [] && LastInput(h, a) == LastInput(h, b)
    ensures b != [] && a[|a| - 1] == b[|b| - 1] && Snapshot(h, a[..|a| - 1]) == Snapshot(h, b[..|b| - 1])
  {
    var m := |a| - 1;
    NotGenesis(Snapshot(h, a[..m]), a[m]);
    var n := |b| - 1;
    ChainInputInjective(Snapshot(h, a[..m]), a[m], Snapshot(h, b[..n]), b[n]);
    assert Linked(h, a, m) && Linked(h, b, n);
  }

  /** What was hashed last. */
  function LastInput(h: HashFn, ledger: seq<Record>): seq<byte> {
    if ledger == [] then GENESIS else ChainInput(Snapshot(h, ledger[..|ledger| - 1]), ledger[|ledger| - 1])
  }

  lemma LastInputDigest(h: HashFn, ledger: seq<Record>)
    requires Intact(h, ledger)
    ensures h(LastInput(h, ledger)) == Snapshot(h, ledger)
  {
    if ledger != [] {
      assert Linked(h, ledger, |ledger| - 1);
    }
  }

  // ---------- transfers ----------

  /** The first policy for a crossing. */
  function FindPolicy(policies: seq<Policy>, from: Domain, to: Domain): Option<Policy> {
    if policies == [] then None
    else if policies[0].from == from && policies[0].to == to then Some(policies[0])
    else FindPolicy(policies[1..], from, to)
  }

  function SaturatingAdd(a: u64, b: u64): u64 {
    if a as int + b < 0x1_0000_0000_0000_0000 then a as int + b else 0xffff_ffff_ffff_ffff
  }

  function Transfer(h: HashFn, policies: seq<Policy>, cap: Cap, from: Domain, to: Domain, approvals: u32, now: u64)
    : Result<Issued, Refusal>
  {
    if !cap.tag then Err(InvalidCapability) else
      var p := FindPolicy(policies, from, to);
      if p.None? then Err(NoPolicy)
      else if approvals < p.value.approvals then Err(InsufficientApprovals)
      else
        var reduced := Restrict(h, cap, Intersect(cap.rights, p.value.maxRights));
        if reduced.Err? then Err(InvalidCapability)
        else Ok(Issued(reduced.value, if p.value.ttl.Some? then Some(SaturatingAdd(now, p.value.ttl.value)) else None))
  }

  /** The grant expires ttl ticks from now, capped at the end of time, or never. */
  ghost predicate ExpiryOf(now: u64, ttl: Option<u64>, expires: Option<u64>) {
    if ttl.None? then expires.None? else expires.Some? && expires.value == Min(now as int + ttl.value, 0xffff_ffff_ffff_ffff)
  }

  /** The policy for a crossing is the first one added for it. */
  lemma {:induction false} FirstPolicy(policies: seq<Policy>, from: Domain, to: Domain)
    ensures FindPolicy(policies, from, to).None? <==> forall i :: 0 <= i < |policies| ==> !(policies[i].from == from && policies[i].to == to)
    ensures FindPolicy(policies, from, to).Some? ==>
      exists i :: 0 <= i < |policies| && policies[i] == FindPolicy(policies, from, to).value && policies[i].from == from && policies[i].to == to
                  && forall j :: 0 <= j < i ==> !(policies[j].from == from && policies[j].to == to)
    decreases |policies|
  {
    if policies != [] && !(policies[0].from == from && policies[0].to == to) {
      var rest := policies[1..];
      FirstPolicy(rest, from, to);
      if FindPolicy(rest, from, to).Some? {
        var i :| 0 <= i < |rest| && rest[i] == FindPolicy(rest, from, to).value && rest[i].from == from && rest[i].to == to
                 && forall j :: 0 <= j < i ==> !(rest[j].from == from && rest[j].to == to);
        assert policies[i + 1] == rest[i] && forall j :: 0 < j < i + 1 ==> policies[j] == rest[j - 1];
      } else {
        assert forall i :: 0 < i < |policies| ==> policies[i] == rest[i - 1];
      }
    }
  }

  /** Why a transfer is refused, and exactly which rights one that is not carries. */
  lemma TransferSays(h: HashFn, policies: seq<Policy>, cap: Cap, from: Domain, to: Domain, approvals: u32, now: u64, j: nat)
    ensures var r, p := Transfer(h, policies, cap, from, to, approvals, now), FindPolicy(policies, from, to);
      && (r.Err? ==> r.error == if !cap.tag then InvalidCapability else if p.None? then NoPolicy
                                else if approvals < p.value.approvals then InsufficientApprovals else InvalidCapability)
      && (r.Ok? ==> (Has(r.value.cap.rights, j) <==> Has(cap.rights, j) && Has(p.value.maxRights, j)))
  {
    var p := FindPolicy(policies, from, to);
    if p.Some? {
      RightsAreSets(cap.rights, p.value.maxRights, j);
      IntersectNarrows(cap.rights, p.value.maxRights);
    }
  }

  /** A record names its position, the crossing, what was granted and until when. */
  lemma RecordSays(h: HashFn, ledger: seq<Record>, from: Domain, to: Domain, granted: Rights, expires: Option<u64>, provenance: Digest)
    ensures var r := NextRecord(h, ledger, from, to, granted, expires, provenance);
      && r.from == from && r.to == to && r.granted == granted && r.expires == expires && r.provenance == provenance
      && (|ledger| < 0x1_0000_0000_0000_0000 ==> r.sequence == |ledger|)
  {
  }

  /** Where each field stands in the bytes a record's digest covers. */
  lemma ChainInputLayout(prev: Digest, r: Record)
    ensures var s := ChainInput(prev, r);
      && |s| == (if r.expires.Some? then 87 else 79)
      && s[..32] == prev && s[32..40] == LE(r.sequence, 8) && s[40] == Code(r.from) && s[41] == Code(r.to)
      && s[42..46] == LE(r.granted, 4) && s[46..78] == r.provenance
      && (if r.expires.Some? then s[78] == 1 && s[79..] == LE(r.expires.value, 8) else s[78] == 0)
  {
  }

  /** A transfer succeeds exactly with a valid capability whose bounds do not overflow, a policy
      for the crossing and enough approvals; and it never amplifies. */
  lemma TransferExactly(h: HashFn, policies: seq<Policy>, cap: Cap, from: Domain, to: Domain, approvals: u32, now: u64)
    ensures var r, p := Transfer(h, policies, cap, from, to, approvals, now), FindPolicy(policies, from, to);
            && (r.Ok? <==> cap.tag && p.Some? && approvals >= p.value.approvals && CheckedAdd(cap.base, cap.len).Some?)
            && (r.Ok? ==> SubsetOf(r.value.cap.rights, cap.rights) && SubsetOf(r.value.cap.rights, p.value.maxRights)
                          && r.value.cap.base == cap.base && r.value.cap.len == cap.len && r.value.cap.tag
                          && ExpiryOf(now, p.value.ttl, r.value.expires))
  {
    var p := FindPolicy(policies, from, to);
    if p.Some? {
      IntersectNarrows(cap.rights, p.value.maxRights);
    }
  }

  class Lock {
    const h: HashFn
    var policies: seq<Policy>
    var ledger: seq<Record>
    var contained: set<Domain>

    ghost predicate Valid()
      reads this
    {
      Intact(h, ledger) && Numbered(ledger)
    }

    constructor (h: HashFn)
      ensures Valid() && this.h == h && policies == [] && ledger == [] && contained == {}
    {
      this.h, policies, ledger, contained := h, [], [], {};
    }

    method AddPolicy(p: Policy)
      modifies this`policies
      ensures policies == old(policies) + [p]
    {
      policies := policies + [p];
    }

    method Append(from: Domain, to: Domain, granted: Rights, expires: Option<u64>, provenance: Digest)
      requires Valid()
      modifies this`ledger
      ensures Valid()
      ensures ledger == old(ledger) + [NextRecord(h, old(ledger), from, to, granted, expires, provenance)]
    {
      AppendKeepsIntact(h, ledger, from, to, granted, expires, provenance);
      var prev := h(GENESIS);
      if ledger != [] {
        prev := ledger[|ledger| - 1].chain;
      }
      var r := Record(|ledger| % 0x1_0000_0000_0000_0000, from, to, granted, expires, provenance, ZeroDigest());
      var input := prev + LE(r.sequence, 8) + [Code(from), Code(to)] + LE(granted, 4) + provenance + ExpiryBytes(expires);
      ledger := ledger + [r.(chain := h(input))];
    }

    method Contain(d: Domain)
      requires Valid()
      modifies this`ledger, this`contained
      ensures Valid() && contained == old(contained) + {d}
      ensures ledger == old(ledger) + [NextRecord(h, old(ledger), d, d, NONE, None, h(CONTAINMENT))]
    {
      contained := contained + {d};
      Append(d, d, NONE, None, h(CONTAINMENT));
    }

    method Release(d: Domain)
      requires Valid()
      modifies this`contained
      ensures Valid() && contained == old(contained) - {d}
    {
      contained := contained - {d};
    }

    /** Refused while either side is contained; recorded exactly when it succeeds. */
    method TransferLogged(cap: Cap, from: Domain, to: Domain, approvals: u32, now: u64) returns (r: Result<Issued, Refusal>)
      requires Valid()
      modifies this`ledger
      ensures Valid()
      ensures r == if from in contained || to in contained then Err(Contained)
                   else Transfer(h, policies, cap, from, to, approvals, now)
      ensures ledger == if r.Err? then old(ledger)
                        else old(ledger) + [NextRecord(h, old(ledger), from, to, r.value.cap.rights, r.value.expires,
                                                       r.value.cap.provenance)]
    {
      if from in contained || to in contained {
        return Err(Contained);
      }
      r := Transfer(h, policies, cap, from, to, approvals, now);
      if r.Err? {
        return;
      }
      Append(from, to, r.value.cap.rights, r.value.expires, r.value.cap.provenance);
    }

    /** `ledger_intact`: the recomputed chain agrees with every record. */
    method LedgerIntact() returns (ok: bool)
      ensures ok <==> Intact(h, ledger)
    {
      var prev := h(GENESIS);
      for i := 0 to |ledger|
        invariant prev == Snapshot(h, ledger[..i])
        invariant forall j :: 0 <= j < i ==> Linked(h, ledger, j)
      {
        if h(ChainInput(prev, ledger[i])) != ledger[i].chain {
          assert !Linked(h, ledger, i);
          return false;
        }
        prev := ledger[i].chain;
      }
      ok := true;
    }
  }
}
