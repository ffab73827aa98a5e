/** Sums over the values of a finite map. */
module Sums {

  ghost function Total<K>(m: map<K, int>): (sum: int)
    ensures (forall k :: k in m ==> m[k] >= 0) ==> sum >= 0
  {
    if m == map[] then 0
    else
      var k :| k in m;
      m[k] + Total(m - {k})
  }

  /** The sum does not depend on which entry is taken out first. */
  lemma {:induction false} TotalRemove<K>(m: map<K, int>, k: K)
    requires k in m
    ensures Total(m) == m[k] + Total(m - {k})
    decreases |m|
  {
    var c :| c in m && Total(m) == m[c] + Total(m - {c});
    if c != k {
      TotalRemove(m - {c}, k);
      TotalRemove(m - {k}, c);
      assert m - {c} - {k} == m - {k} - {c};
    }
  }

  lemma TotalInsert<K>(m: map<K, int>, k: K, v: int)
    ensures k !in m ==> Total(m[k := v]) == Total(m) + v
    ensures k in m ==> Total(m[k := v]) == Total(m) - m[k] + v
  {
    TotalRemove(m[k := v], k);
    if k in m {
      TotalRemove(m, k);
      assert m[k := v] - {k} == m - {k};
    } else {
      assert m[k := v] - {k} == m;
    }
  }

  /** Splitting a map by its keys splits the sum. */
  lemma {:induction false} TotalSplit<K>(m: map<K, int>, out: set<K>)
    requires out <= m.Keys
    ensures Total(m) == Total(m - out) + Total(m - (m.Keys - out))
    decreases |m|
  {
    if out == {} {
      assert m - out == m;
      assert m - (m.Keys - out) == map[];
    } else {
      var k :| k in out;
      var rest := m - {k};
      TotalSplit(rest, out - {k});
      TotalRemove(m, k);
      assert rest - (out - {k}) == m - out;
      var taken := m - (m.Keys - out);
      TotalRemove(taken, k);
      assert taken - {k} == rest - (rest.Keys - (out - {k}));
    }
  }

  /** Without negative values, no value exceeds the sum. */
  lemma TotalCovers<K>(m: map<K, int>, k: K)
    requires k in m && forall i :: i in m ==> m[i] >= 0
    ensures m[k] <= Total(m)
  {
    TotalRemove(m, k);
  }

  lemma {:induction false} TotalOfZeros<K>(m: map<K, int>)
    requires forall k :: k in m ==> m[k] == 0
    ensures Total(m) == 0
    decreases |m|
  {
    if m != map[] {
      var k :| k in m;
      TotalRemove(m, k);
      TotalOfZeros(m - {k});
    }
  }
}
