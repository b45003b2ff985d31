/** The sum of a map's values, whatever order they are visited in. */
module Totals {
  /** The sum over some order of the keys; `TotalAt` shows that the order is irrelevant. */
  ghost function Total<K(!new)>(m: map<K, nat>): nat
    decreases |m|
  {
    if m == map[] then 0
    else
      var k :| k in m;
      m[k] + Total(m - {k})
  }

  /** Any key can be split off. */
  lemma {:induction false} TotalAt<K(!new)>(m: map<K, nat>, k: K)
    requires k in m
    ensures Total(m) == m[k] + Total(m - {k})
    decreases |m|
  {
    var j :| j in m && Total(m) == m[j] + Total(m - {j});
    if j != k {
      var rest := m - {j};
      TotalAt(rest, k);
      TotalAt(m - {k}, j);
      assert rest - {k} == m - {k} - {j};
    }
  }

  /** Storing a value replaces the old one in the sum. */
  lemma TotalUpdate<K(!new)>(m: map<K, nat>, k: K, v: nat)
    ensures Total(m[k := v]) == Total(m - {k}) + v
  {
    TotalAt(m[k := v], k);
    assert m[k := v] - {k} == m - {k};
  }

  lemma TotalWithout<K(!new)>(m: map<K, nat>, k: K)
    ensures Total(m - {k}) == Total(m) - if k in m then m[k] else 0
  {
    if k in m {
      TotalAt(m, k);
    } else {
      assert m - {k} == m;
    }
  }

  /** The entries visited so far by a loop over a directory. */
  ghost function Part<K, V>(m: map<K, V>, keys: set<K>): map<K, V> {
    map k | k in m && k in keys :: m[k]
  }

  /** One more entry visited, one more size added. */
  lemma TotalMore<K(!new)>(m: map<K, nat>, keys: set<K>, k: K)
    requires k in m && k !in keys
    ensures Total(Part(m, keys + {k})) == Total(Part(m, keys)) + m[k]
  {
    var before := Part(m, keys);
    assert Part(m, keys + {k}) == before[k := m[k]] && before - {k} == before;
    TotalUpdate(before, k, m[k]);
  }
}
