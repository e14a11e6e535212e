/** Sums over the values of maps. */
module Sums {
  ghost function Pick<K(!new)>(m: map<K, int>): (k: K)
    requires exists k :: k in m
    ensures k in m
  {
    var k :| k in m;
    k
  }

  ghost function Sum<K(!new)>(m: map<K, int>): int
    decreases |m|
  {
    if exists k :: k in m then
      var k := Pick(m);
      m[k] + Sum(m - {k})
    else 0
  }

  lemma {:induction false} SumWithout<K(!new)>(m: map<K, int>, k: K)
    requires k in m
    ensures Sum(m) == m[k] + Sum(m - {k})
    decreases |m|
  {
    var j := Pick(m);
    if j != k {
      SumWithout(m - {j}, k);
      SumWithout(m - {k}, j);
      assert m - {j} - {k} == m - {k} - {j};
    }
  }

  lemma SumSet<K(!new)>(m: map<K, int>, k: K, v: int)
    ensures Sum(m[k := v]) == Sum(m) - (if k in m then m[k] else 0) + v
  {
    var n := m[k := v];
    SumWithout(n, k);
    assert n - {k} == m - {k};
    if k in m {
      SumWithout(m, k);
    } else {
      assert m - {k} == m;
    }
  }

  lemma {:induction false} SumBounds<K(!new)>(m: map<K, int>)
    requires forall k | k in m :: m[k] >= 0
    ensures Sum(m) >= 0
    decreases |m|
  {
    if exists k :: k in m {
      SumBounds(m - {Pick(m)});
    }
  }

  lemma EntryBound<K(!new)>(m: map<K, int>, k: K)
    requires (forall j | j in m :: m[j] >= 0) && k in m
    ensures m[k] <= Sum(m)
  {
    SumWithout(m, k);
    SumBounds(m - {k});
  }
}
