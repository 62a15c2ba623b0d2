/** Rights and capabilities (`capability.rs`): authority is only ever narrowed. */
module Capability {
  import opened Arith
  import opened Bytes
  import opened Bits

  type Rights = u32

  const NONE: Rights := 0
  const READ: Rights := 1
  const WRITE: Rights := 2
  const EXECUTE: Rights := 4

  predicate Contains(held: Rights, other: Rights) { And(held, other) == other }
  predicate SubsetOf(r: Rights, held: Rights) { And(r, held) == r }

  function Intersect(a: Rights, b: Rights): Rights {
    AndAtMost(a, b);
    And(a, b)
  }

  /** READ and WRITE together. */
  const READ_WRITE: Rights := 3

  datatype CapError = MonotonicityViolation | BoundsEscalation | TagInvalid | InsufficientRights | OutOfBounds

  datatype Cap = Cap(base: u64, len: u64, rights: Rights, provenance: Digest, tag: bool)

  function CheckedAdd(a: u64, b: u64): Option<u64> {
    if a as int + b < 0x1_0000_0000_0000_0000 then Some(a as int + b) else None
  }

  /** What a child's provenance hashes: its own bounds and rights. */
  function ChildSeed(base: u64, len: u64, rights: Rights): seq<byte> {
    LE(base, 8) + LE(len, 8) + LE(rights, 4)
  }

  function Derive(h: HashFn, parent: Cap, base: u64, len: u64, rights: Rights): Result<Cap, CapError> {
    if !parent.tag then Err(TagInvalid)
    else if !SubsetOf(rights, parent.rights) then Err(MonotonicityViolation)
    else
      var parentEnd, childEnd := CheckedAdd(parent.base, parent.len), CheckedAdd(base, len);
      if parentEnd.None? || childEnd.None? || base < parent.base || childEnd.value > parentEnd.value
      then Err(BoundsEscalation)
      else Ok(Cap(base, len, rights, h(parent.provenance + h(ChildSeed(base, len, rights))), true))
  }

  function Restrict(h: HashFn, parent: Cap, rights: Rights): Result<Cap, CapError> {
    Derive(h, parent, parent.base, parent.len, rights)
  }

  function Check(c: Cap, addr: u64, size: u64, needed: Rights): Option<CapError> {
    if !c.tag then Some(TagInvalid)
    else if !Contains(c.rights, needed) then Some(InsufficientRights)
    else
      var end, accessEnd := CheckedAdd(c.base, c.len), CheckedAdd(addr, size);
      if end.None? || accessEnd.None? || addr < c.base || accessEnd.value > end.value then Some(OutOfBounds)
      else None
  }

  function Tamper(c: Cap): Cap { c.(tag := false) }

  /** Everything a child admits, its parent admits too. */
  lemma DeriveAttenuates(h: HashFn, parent: Cap, base: u64, len: u64, rights: Rights, addr: u64, size: u64, needed: Rights)
    requires Derive(h, parent, base, len, rights).Ok?
    requires Check(Derive(h, parent, base, len, rights).value, addr, size, needed).None?
    ensures Check(parent, addr, size, needed).None?
  {
    AndTransitive(needed, rights, parent.rights);
  }

  /** Bit sets are transitive under inclusion. */
  lemma {:induction false} AndTransitive(a: nat, b: nat, c: nat)
    requires And(b, a) == a && And(b, c) == b
    ensures And(c, a) == a
    decreases a + b + c
  {
    ZipStep(AndGate, b, a);
    ZipStep(AndGate, b, c);
    ZipStep(AndGate, c, a);
    if a + b + c > 0 {
      AndTransitive(a / 2, b / 2, c / 2);
    }
  }

  lemma {:induction false} AndAbsorbs(a: nat, b: nat)
    ensures And(And(a, b), a) == And(a, b) && And(And(a, b), b) == And(a, b)
    decreases a + b
  {
    ZipStep(AndGate, a, b);
    ZipStep(AndGate, And(a, b), a);
    ZipStep(AndGate, And(a, b), b);
    if a + b > 0 {
      AndAbsorbs(a / 2, b / 2);
    }
  }

  /** An intersection is within both sides. */
  lemma IntersectNarrows(a: Rights, b: Rights)
    ensures SubsetOf(Intersect(a, b), a) && SubsetOf(Intersect(a, b), b)
  {
    AndAbsorbs(a, b);
  }

  // ---------- rights as sets of bits ----------

  predicate Has(r: nat, j: nat) { r / Pow2(j) % 2 == 1 }

  /** An intersection holds exactly the rights both hold. */
  lemma {:induction false} AndBits(a: nat, b: nat, j: nat)
    ensures Has(And(a, b), j) <==> Has(a, j) && Has(b, j)
    decreases j
  {
    ZipStep(AndGate, a, b);
    assert Pow2(0) == 1;
    if j > 0 {
      AndBits(a / 2, b / 2, j - 1);
      HasHalf(And(a, b), j);
      HasHalf(a, j);
      HasHalf(b, j);
    }
  }

  lemma HasHalf(x: nat, j: nat)
    requires j > 0
    ensures Has(x, j) == Has(x / 2, j - 1)
  {
    DivDiv(x, 2, Pow2(j - 1));
  }

  lemma {:induction false} SameBits(x: nat, y: nat)
    requires forall j :: Has(x, j) == Has(y, j)
    ensures x == y
    decreases x + y
  {
    if x + y > 0 {
      assert Has(x, 0) == Has(y, 0) && Pow2(0) == 1;
      forall j: nat
        ensures Has(x / 2, j) == Has(y / 2, j)
      {
        HasHalf(x, j + 1);
        HasHalf(y, j + 1);
        assert Has(x, j + 1) == Has(y, j + 1);
      }
      SameBits(x / 2, y / 2);
    }
  }

  /** Rights are a subset, or are contained, bit by bit; and an intersection is exactly the common ones. */
  lemma RightsAreSets(a: Rights, b: Rights, j: nat)
    ensures SubsetOf(a, b) <==> forall i :: Has(a, i) ==> Has(b, i)
    ensures Contains(b, a) <==> forall i :: Has(a, i) ==> Has(b, i)
    ensures Has(Intersect(a, b), j) <==> Has(a, j) && Has(b, j)
  {
    AndBits(a, b, j);
    forall i
      ensures Has(And(a, b), i) == (Has(a, i) && Has(b, i)) && Has(And(b, a), i) == (Has(a, i) && Has(b, i))
    {
      AndBits(a, b, i);
      AndBits(b, a, i);
    }
    if forall i :: Has(a, i) ==> Has(b, i) {
      SameBits(And(a, b), a);
      SameBits(And(b, a), a);
    }
  }

  // ---------- exactly when ----------

  /** [base, base + len) as a range of addresses that does not run over 64 bits. */
  predicate Ranges(base: u64, len: u64) { base as int + len < 0x1_0000_0000_0000_0000 }

  predicate Inside(base: u64, len: u64, outerBase: u64, outerLen: u64) {
    outerBase <= base && base as int + len <= outerBase as int + outerLen
  }

  /** A child is derived exactly from a valid parent with at least its rights and around its range;
      it has the bounds and rights asked for, and is valid. Each refusal says why. */
  lemma DeriveExactly(h: HashFn, parent: Cap, base: u64, len: u64, rights: Rights, r: Result<Cap, CapError>)
    requires r == Derive(h, parent, base, len, rights)
    ensures r.Ok? <==> parent.tag && SubsetOf(rights, parent.rights) && Ranges(parent.base, parent.len) && Ranges(base, len)
                       && Inside(base, len, parent.base, parent.len)
    ensures r.Ok? ==> r.value.base == base && r.value.len == len && r.value.rights == rights && r.value.tag
    ensures r.Err? ==> r.error == if !parent.tag then TagInvalid
                                  else if !SubsetOf(rights, parent.rights) then MonotonicityViolation else BoundsEscalation
  {
  }

  /** An access is admitted exactly by a valid capability that holds the rights and covers the range. */
  lemma CheckExactly(c: Cap, addr: u64, size: u64, needed: Rights, r: Option<CapError>)
    requires r == Check(c, addr, size, needed)
    ensures r.None? <==> c.tag && Contains(c.rights, needed) && Ranges(c.base, c.len) && Ranges(addr, size)
                         && Inside(addr, size, c.base, c.len)
    ensures r.Some? ==> r.value == if !c.tag then TagInvalid else if !Contains(c.rights, needed) then InsufficientRights else OutOfBounds
  {
  }

  /** A provenance binds the parent's and the child's bounds and rights, or the hash collides on what
      went into the two. */
  lemma ProvenanceBinds(h: HashFn, p: Cap, p': Cap, c: Cap, c': Cap)
    requires Derive(h, p, c.base, c.len, c.rights) == Ok(c) && Derive(h, p', c'.base, c'.len, c'.rights) == Ok(c')
    requires c.provenance == c'.provenance
    ensures var s, s' := ChildSeed(c.base, c.len, c.rights), ChildSeed(c'.base, c'.len, c'.rights);
      || (p.provenance == p'.provenance && c == c')
      || Collide(h, s, s') || Collide(h, p.provenance + h(s), p'.provenance + h(s'))
  {
    var s, s' := ChildSeed(c.base, c.len, c.rights), ChildSeed(c'.base, c'.len, c'.rights);
    var x, y := p.provenance + h(s), p'.provenance + h(s');
    if x == y {
      assert x[..32] == p.provenance && y[..32] == p'.provenance && x[32..] == h(s) && y[32..] == h(s');
      if s == s' {
        SeedLayout(c.base, c.len, c.rights);
        SeedLayout(c'.base, c'.len, c'.rights);
        Widths();
        LEInjective(c.base, c'.base, 8);
        LEInjective(c.len, c'.len, 8);
        LEInjective(c.rights, c'.rights, 4);
      }
    }
  }

  lemma SeedLayout(base: u64, len: u64, rights: Rights)
    ensures var s := ChildSeed(base, len, rights);
      |s| == 20 && s[..8] == LE(base, 8) && s[8..16] == LE(len, 8) && s[16..20] == LE(rights, 4)
  {
  }
}
