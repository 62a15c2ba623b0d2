/** Descendant selectors (`css.rs`): the greedy walk up the tree finds a match whenever
    there is one (section 8.1 of Selectors Level 3). */
module Css {
  import opened Bytes

  /** A node and, through `parent`, its line of ancestors. */
  datatype Node =
    | Text
    | Element(tag: string, id: Option<string>, classes: seq<string>, parent: Option<Node>)

  datatype Compound = Compound(tag: Option<string>, id: Option<string>, classes: seq<string>, universal: bool)

  function ParentOf(n: Node): Option<Node> {
    if n.Element? then n.parent else None
  }

  predicate CompoundMatches(c: Compound, n: Node) {
    if c.universal && c.tag.None? && c.id.None? && c.classes == [] then n.Element?
    else
      && (c.tag.Some? ==> n.Element? && n.tag == c.tag.value)
      && (c.id.Some? ==> n.Element? && n.id == c.id)
      && (c.classes != [] ==> n.Element? && forall w :: w in c.classes ==> w in n.classes)
  }

  /** The simple selectors of section 6 of Selectors Level 3 that a compound is made of. */
  datatype Simple = Any | Tag(name: string) | Id(name: string) | Class(name: string)

  ghost predicate MadeOf(c: Compound, s: Simple) {
    match s
    case Any => c.universal
    case Tag(name) => c.tag == Some(name)
    case Id(name) => c.id == Some(name)
    case Class(name) => name in c.classes
  }

  predicate Satisfies(n: Node, s: Simple) {
    n.Element? && match s
      case Any => true
      case Tag(name) => n.tag == name
      case Id(name) => n.id == Some(name)
      case Class(name) => name in n.classes
  }

  /** A compound matches exactly the nodes that satisfy each of its simple selectors. */
  lemma CompoundMeans(c: Compound, n: Node)
    ensures CompoundMatches(c, n) <==> forall s :: MadeOf(c, s) ==> Satisfies(n, s)
  {
    if CompoundMatches(c, n) {
      forall s | MadeOf(c, s)
        ensures Satisfies(n, s)
      {
        match s
        case Class(name) => assert name in c.classes;
        case _ =>
      }
    }
    if forall s :: MadeOf(c, s) ==> Satisfies(n, s) {
      assert MadeOf(c, Any) ==> Satisfies(n, Any);
      assert c.tag.Some? ==> MadeOf(c, Tag(c.tag.value)) && Satisfies(n, Tag(c.tag.value));
      assert c.id.Some? ==> MadeOf(c, Id(c.id.value)) && Satisfies(n, Id(c.id.value));
      forall w | w in c.classes
        ensures n.Element? && w in n.classes
      {
        assert MadeOf(c, Class(w)) && Satisfies(n, Class(w));
      }
      if c.classes != [] {
        assert c.classes[0] in c.classes;
      }
    }
  }

  // ---------- what a selector means ----------

  /** The ancestors of a node, nearest first. */
  function Ancestors(n: Node): seq<Node> {
    if n.Element? && n.parent.Some? then [n.parent.value] + Ancestors(n.parent.value) else []
  }

  /** A node and its ancestors. */
  function Line(n: Option<Node>): seq<Node> {
    if n.None? then [] else [n.value] + Ancestors(n.value)
  }

  lemma LineOfParent(n: Node)
    ensures Line(ParentOf(n)) == Ancestors(n)
  {
  }

  /** The compounds chain[k - 1], .., chain[0]: outward from the subject. */
  function Outward(chain: seq<Compound>, k: nat): (r: seq<Compound>)
    requires k <= |chain|
    ensures |r| == k && forall j :: 0 <= j < k ==> r[j] == chain[k - 1 - j]
  {
    if k == 0 then [] else [chain[k - 1]] + Outward(chain, k - 1)
  }

  ghost predicate Climbing(at: seq<nat>) {
    forall i, j :: 0 <= i < j < |at| ==> at[i] < at[j]
  }

  /** The compounds match the ancestors at these positions, each further out than the last. */
  ghost predicate Places(comps: seq<Compound>, line: seq<Node>, at: seq<nat>) {
    && |at| == |comps| && Climbing(at)
    && forall i :: 0 <= i < |at| ==> at[i] < |line| && CompoundMatches(comps[i], line[at[i]])
  }

  ghost predicate Nested(comps: seq<Compound>, line: seq<Node>) {
    exists at :: Places(comps, line, at)
  }

  /** The subject matches the node, and the other compounds some nested choice of its ancestors. */
  ghost predicate Selects(chain: seq<Compound>, node: Node) {
    && chain != [] && CompoundMatches(chain[|chain| - 1], node)
    && Nested(Outward(chain, |chain| - 1), Ancestors(node))
  }

  // ---------- greed is complete ----------

  lemma NestedNothing(line: seq<Node>)
    ensures Nested([], line)
  {
    assert Places([], line, []);
  }

  lemma NestedNowhere(comps: seq<Compound>)
    requires comps != []
    ensures !Nested(comps, [])
  {
    var first := comps[0];
  }

  function Shift(at: seq<nat>, d: int): (r: seq<nat>)
    requires forall i :: 0 <= i < |at| ==> at[i] + d >= 0
    ensures |r| == |at| && forall i :: 0 <= i < |at| ==> r[i] == at[i] + d
  {
    seq(|at|, i requires 0 <= i < |at| => at[i] + d)
  }

  /** An ancestor that does not match the next compound can be passed over. */
  lemma PassOver(comps: seq<Compound>, a: Node, rest: seq<Node>)
    requires comps != [] && !CompoundMatches(comps[0], a)
    ensures Nested(comps, [a] + rest) <==> Nested(comps, rest)
  {
    var line := [a] + rest;
    if at :| Places(comps, line, at) {
      assert at[0] > 0;
      assert forall i :: 0 <= i < |at| ==> at[i] > 0;
      assert Places(comps, rest, Shift(at, -1));
    }
    if at :| Places(comps, rest, at) {
      assert Places(comps, line, Shift(at, 1));
    }
  }

  lemma DropFirst(c: Compound, comps: seq<Compound>, a: Node, rest: seq<Node>, at: seq<nat>)
    requires Places([c] + comps, [a] + rest, at)
    ensures Nested(comps, rest)
  {
    var down := Fewer(at);
    forall i | 0 <= i < |down|
      ensures down[i] < |rest| && CompoundMatches(comps[i], rest[down[i]])
    {
      MatchBehind(c, comps, a, rest, at, i);
    }
    assert Places(comps, rest, down);
  }

  /** Positions after the first, counted from the next ancestor. */
  function Fewer(at: seq<nat>): (r: seq<nat>)
    requires at != [] && Climbing(at)
    ensures |r| == |at| - 1 && Climbing(r) && forall i :: 0 <= i < |r| ==> at[i + 1] == r[i] + 1
  {
    seq(|at| - 1, i requires 0 <= i < |at| - 1 => assert at[0] < at[i + 1]; at[i + 1] - 1)
  }

  lemma MatchBehind(c: Compound, comps: seq<Compound>, a: Node, rest: seq<Node>, at: seq<nat>, i: nat)
    requires Places([c] + comps, [a] + rest, at) && i < |comps|
    ensures 0 < at[i + 1] <= |rest| && CompoundMatches(comps[i], rest[at[i + 1] - 1])
  {
    assert at[0] < at[i + 1] && ([c] + comps)[i + 1] == comps[i];
    assert ([a] + rest)[at[i + 1]] == rest[at[i + 1] - 1];
  }

  lemma PutFirst(c: Compound, comps: seq<Compound>, a: Node, rest: seq<Node>, at: seq<nat>)
    requires CompoundMatches(c, a) && Places(comps, rest, at)
    ensures Nested([c] + comps, [a] + rest)
  {
    var up := [0] + Shift(at, 1);
    forall i | 0 <= i < |up|
      ensures up[i] < |rest| + 1 && CompoundMatches(([c] + comps)[i], ([a] + rest)[up[i]])
    {
      if i > 0 {
        assert up[i] == at[i - 1] + 1 && ([c] + comps)[i] == comps[i - 1];
      }
    }
    assert Places([c] + comps, [a] + rest, up);
  }

  /** The nearest ancestor that matches may always be taken. */
  lemma TakeNearest(c: Compound, comps: seq<Compound>, a: Node, rest: seq<Node>)
    requires CompoundMatches(c, a)
    ensures Nested([c] + comps, [a] + rest) <==> Nested(comps, rest)
  {
    if at :| Places([c] + comps, [a] + rest, at) {
      DropFirst(c, comps, a, rest, at);
    }
    if at :| Places(comps, rest, at) {
      PutFirst(c, comps, a, rest, at);
    }
  }

  /** `Selector::matches`. */
  method Matches(chain: seq<Compound>, node: Node) returns (ok: bool)
    ensures ok <==> Selects(chain, node)
  {
    if chain == [] || !CompoundMatches(chain[|chain| - 1], node) {
      return false;
    }
    var idx := |chain| - 2;
    var cur := ParentOf(node);
    LineOfParent(node);
    while idx >= 0
      invariant -1 <= idx <= |chain| - 2
      invariant Selects(chain, node) <==> Nested(Outward(chain, idx + 1), Line(cur))
    {
      var matched;
      matched, cur := Climb(chain, idx, cur);
      if !matched {
        return false;
      }
      idx := idx - 1;
    }
    NestedNothing(Line(cur));
    ok := true;
  }

  /** The inner loop: up to the nearest ancestor that matches compound `idx`. */
  method Climb(chain: seq<Compound>, idx: nat, start: Option<Node>) returns (matched: bool, cur: Option<Node>)
    requires idx < |chain|
    ensures matched ==> (Nested(Outward(chain, idx + 1), Line(start)) <==> Nested(Outward(chain, idx), Line(cur)))
    ensures !matched ==> !Nested(Outward(chain, idx + 1), Line(start))
  {
    cur := start;
    ghost var want := Outward(chain, idx + 1);
    assert want == [chain[idx]] + Outward(chain, idx);
    while cur.Some?
      invariant Nested(want, Line(start)) <==> Nested(want, Line(cur))
      decreases |Line(cur)|
    {
      var anc := cur.value;
      cur := ParentOf(anc);
      LineOfParent(anc);
      if CompoundMatches(chain[idx], anc) {
        TakeNearest(chain[idx], Outward(chain, idx), anc, Line(cur));
        return true, cur;
      }
      PassOver(want, anc, Line(cur));
    }
    NestedNowhere(want);
    matched := false;
  }
}
