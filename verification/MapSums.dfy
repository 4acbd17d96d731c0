/** Sums over the values of a finite map. */
module MapSums {
  ghost function MapSum<K>(m: map<K, int>): int {
    if m == map[] then 0
    else
      var k :| k in m;
      m[k] + MapSum(m - {k})
  }

  /** Any key can be taken out first. */
  lemma {:induction false} TakeOut<K>(m: map<K, int>, k: K)
    requires k in m
    ensures MapSum(m) == m[k] + MapSum(m - {k})
    decreases |m|
  {
    var j :| j in m && MapSum(m) == m[j] + MapSum(m - {j});
    if j != k {
      assert (m - {j}).Keys < m.Keys && (m - {k}).Keys < m.Keys;
      TakeOut(m - {j}, k);
      TakeOut(m - {k}, j);
      assert m - {j} - {k} == m - {k} - {j};
    }
  }

  /** Setting one entry changes the sum by the difference at that entry. */
  lemma SetEntry<K>(m: map<K, int>, k: K, v: int)
    ensures MapSum(m[k := v]) == MapSum(m) + v - (if k in m then m[k] else 0)
  {
    TakeOut(m[k := v], k);
    assert m[k := v] - {k} == m - {k};
    if k in m { TakeOut(m, k); } else { assert m - {k} == m; }
  }

  lemma {:induction false} SumBounds<K>(m: map<K, int>, k: K)
    requires k in m && forall j :: j in m ==> m[j] >= 0
    ensures 0 <= m[k] <= MapSum(m)
    decreases |m|
  {
    TakeOut(m, k);
    if m - {k} != map[] {
      var j :| j in m - {k};
      assert (m - {k}).Keys < m.Keys;
      SumBounds(m - {k}, j);
    }
  }
}
