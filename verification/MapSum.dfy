/** The sum of a weight over the values of a finite map. */
module MapSum {

  ghost function Sum<K, V>(m: map<K, V>, w: V -> nat): nat
    decreases |m|
  {
    if m == map[] then 0 else
      var k :| k in m;
      w(m[k]) + Sum(m - {k}, w)
  }

  lemma {:induction false} SumRemove<K, V>(m: map<K, V>, w: V -> nat, k: K)
    requires k in m
    ensures Sum(m, w) == w(m[k]) + Sum(m - {k}, w)
    decreases |m|
  {
    var j :| j in m && Sum(m, w) == w(m[j]) + Sum(m - {j}, w);
    if j != k {
      SumRemove(m - {j}, w, k);
      SumRemove(m - {k}, w, j);
      assert m - {j} - {k} == m - {k} - {j};
    }
  }

  /** Setting a key replaces what it contributed before. */
  lemma SumUpdate<K, V>(m: map<K, V>, w: V -> nat, k: K, v: V)
    ensures Sum(m[k := v], w) == Sum(m - {k}, w) + w(v)
    ensures Sum(m, w) == Sum(m - {k}, w) + if k in m then w(m[k]) else 0
  {
    SumRemove(m[k := v], w, k);
    assert m[k := v] - {k} == m - {k};
    if k in m {
      SumRemove(m, w, k);
    } else {
      assert m - {k} == m;
    }
  }
}
