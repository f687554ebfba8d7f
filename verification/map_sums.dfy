/** The number of entries held by a dictionary whose values are lists: the sum
    of the list lengths. Shared by the spatial hash grid's buckets and the
    render batch collection. */
module MapSums {

  ghost function Total<K, V>(m: map<K, seq<V>>): nat
  {
    if m == map[] then 0
    else
      var k :| k in m;
      |m[k]| + Total(m - {k})
  }

  /** Any key can be taken out first: the total is that list's length plus
      the total of the rest. */
  lemma {:induction false} TotalRemove<K, V>(m: map<K, seq<V>>, k: K)
    requires k in m
    ensures Total(m) == |m[k]| + Total(m - {k})
    decreases |m|
  {
    var j :| j in m && Total(m) == |m[j]| + Total(m - {j});
    if j != k {
      var rest := m - {j};
      assert |rest| < |m| by { assert rest.Keys < m.Keys; }
      TotalRemove(rest, k);
      var both := rest - {k};
      assert m - {k} - {j} == both;
      assert |m - {k}| < |m| by { assert (m - {k}).Keys < m.Keys; }
      TotalRemove(m - {k}, j);
      assert (m - {k})[j] == m[j];
    }
  }

  /** Replacing one list changes the total by the difference in lengths. */
  lemma TotalUpdate<K, V>(m: map<K, seq<V>>, k: K, v: seq<V>)
    ensures Total(m[k := v]) == Total(m) - (if k in m then |m[k]| else 0) + |v|
  {
    var m' := m[k := v];
    TotalRemove(m', k);
    assert m' - {k} == m - {k};
    if k in m {
      TotalRemove(m, k);
    } else {
      assert m - {k} == m;
    }
  }

  /** A dictionary whose lists are all empty holds no entries. */
  lemma {:induction false} TotalAllEmpty<K, V>(m: map<K, seq<V>>)
    requires forall k :: k in m ==> m[k] == []
    ensures Total(m) == 0
    decreases |m|
  {
    if m != map[] {
      var k :| k in m;
      TotalRemove(m, k);
      assert |m - {k}| < |m| by { assert (m - {k}).Keys < m.Keys; }
      TotalAllEmpty(m - {k});
    }
  }
}
