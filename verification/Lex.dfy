/** The order of byte strings in ordered maps. */
module Lex {
  import opened Bytes
  import Arith

  /** Digests compare byte by byte from the left. */
  predicate LexLess(a: seq<byte>, b: seq<byte>) {
    if b == [] then false else if a == [] then true
    else a[0] < b[0] || (a[0] == b[0] && LexLess(a[1..], b[1..]))
  }

  lemma {:induction false} LexTotal(a: seq<byte>, b: seq<byte>)
    ensures LexLess(a, b) || a == b || LexLess(b, a)
    ensures !(LexLess(a, b) && LexLess(b, a)) && (LexLess(a, b) ==> a != b)
  {
    if a != [] && b != [] {
      LexTotal(a[1..], b[1..]);
      assert a == [a[0]] + a[1..] && b == [b[0]] + b[1..];
    }
  }

  lemma {:induction false} LexTransitive(a: seq<byte>, b: seq<byte>, c: seq<byte>)
    requires LexLess(a, b) && LexLess(b, c)
    ensures LexLess(a, c)
  {
    if a != [] && b != [] && c != [] && a[0] == b[0] == c[0] {
      LexTransitive(a[1..], b[1..], c[1..]);
    }
  }

  /** A non-empty finite set of byte strings has a first element. */
  lemma {:induction false} FirstExists(s: set<seq<byte>>) returns (m: seq<byte>)
    requires s != {}
    ensures m in s && forall x :: x in s ==> !LexLess(x, m)
  {
    m :| m in s;
    var rest := s - {m};
    if rest == {} {
      forall x | x in s
        ensures !LexLess(x, m)
      {
        assert x == m || x in rest;
        LexTotal(m, m);
      }
    } else {
      var k := FirstExists(rest);
      LexTotal(k, m);
      LexTotal(m, m);
      var first := if LexLess(k, m) then k else m;
      forall x | x in s
        ensures !LexLess(x, first)
      {
        if x != m && first == m {
          LexTotal(x, k);
          if LexLess(x, m) && LexLess(m, k) {
            LexTransitive(x, m, k);
          }
        }
      }
      m := first;
    }
  }

  /** The number a byte string is, most significant byte first. */
  function FromBE(s: seq<byte>): nat {
    if s == [] then 0 else s[0] as int * Pow256(|s| - 1) + FromBE(s[1..])
  }

  lemma {:induction false} FromBEBound(s: seq<byte>)
    ensures FromBE(s) < Pow256(|s|)
  {
    if s != [] {
      FromBEBound(s[1..]);
      Arith.MulBound(s[0], Pow256(|s| - 1), 255, Pow256(|s| - 1));
    }
  }

  /** Strings of one length are ordered as numbers. */
  lemma {:induction false} LexIsNumber(a: seq<byte>, b: seq<byte>)
    requires |a| == |b|
    ensures LexLess(a, b) <==> FromBE(a) < FromBE(b)
    decreases |a|
  {
    if a != [] {
      var m := Pow256(|a| - 1);
      LexIsNumber(a[1..], b[1..]);
      FromBEBound(a[1..]);
      FromBEBound(b[1..]);
      TopDecides(a[0], b[0], m, FromBE(a[1..]), FromBE(b[1..]));
    }
  }

  lemma TopDecides(x: nat, y: nat, m: nat, u: nat, v: nat)
    requires u < m && v < m
    ensures x * m + u < y * m + v <==> x < y || (x == y && u < v)
  {
    if x < y {
      Arith.MulBound(x + 1, m, y, m);
    } else if y < x {
      Arith.MulBound(y + 1, m, x, m);
    }
  }
}
