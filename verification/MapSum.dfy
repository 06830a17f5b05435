/** Sums over finite maps, used for termination measures over tables, and sizes of subsets. */
module MapSum {

  ghost function Sum<K(!new)>(m: map<K, nat>): nat
    decreases |m|
  {
    if m == map[] then 0
    else
      var k :| k in m;
      m[k] + Sum(m - {k})
  }

  lemma SomeKey<K, V>(m: map<K, V>) returns (k: K)
    requires m != map[]
    ensures k in m
  {
    k :| k in m;
  }

  /** The sum does not depend on the order in which keys are taken out. */
  lemma {:induction false} SumSplit<K(!new)>(m: map<K, nat>, k: K)
    requires k in m
    ensures Sum(m) == m[k] + Sum(m - {k})
    decreases |m|
  {
    var j :| j in m && Sum(m) == m[j] + Sum(m - {j});
    if j != k {
      var rest := m - {j};
      SumSplit(rest, k);
      SumSplit(m - {k}, j);
      assert rest - {k} == (m - {k}) - {j};
    }
  }

  lemma SumInsert<K(!new)>(m: map<K, nat>, k: K, v: nat)
    requires k !in m
    ensures Sum(m[k := v]) == Sum(m) + v
  {
    SumSplit(m[k := v], k);
    assert m[k := v] - {k} == m;
  }

  lemma SumUpdate<K(!new)>(m: map<K, nat>, k: K, v: nat)
    requires k in m
    ensures Sum(m[k := v]) + m[k] == Sum(m) + v
  {
    SumSplit(m, k);
    SumSplit(m[k := v], k);
    assert m[k := v] - {k} == m - {k};
  }

  /** Dropping keys and lowering values lowers the sum. */
  lemma {:induction false} SumShrinks<K(!new)>(m: map<K, nat>, m': map<K, nat>)
    requires forall k :: k in m' ==> k in m && m'[k] <= m[k]
    ensures Sum(m') <= Sum(m)
    decreases |m|
  {
    if m != map[] {
      var k := SomeKey(m);
      SumSplit(m, k);
      if k in m' { SumSplit(m', k); } else { assert m' - {k} == m'; }
      SumShrinks(m - {k}, m' - {k});
    }
  }

  lemma SumShrinksStrictly<K(!new)>(m: map<K, nat>, m': map<K, nat>, j: K)
    requires forall k :: k in m' ==> k in m && m'[k] <= m[k]
    requires j in m && m[j] > 0 && (j in m' ==> m'[j] < m[j])
    ensures Sum(m') < Sum(m)
  {
    SumSplit(m, j);
    if j in m' { SumSplit(m', j); } else { assert m' - {j} == m'; }
    SumShrinks(m - {j}, m' - {j});
  }

  lemma SubsetSize<T>(a: set<T>, b: set<T>)
    requires a <= b
    ensures |a| <= |b|
  {
    assert b == a + (b - a);
  }
}
