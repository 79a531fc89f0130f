/** Sums of a weight over the entries of a finite map. */
module MapSums {

  ghost function Sum<K, V>(m: map<K, V>, f: (K, V) -> nat): nat
    decreases |m|
  {
    if m == map[] then 0
    else
      var k :| k in m;
      RemoveShrinks(m, k);
      f(k, m[k]) + Sum(m - {k}, f)
  }

  lemma RemoveShrinks<K, V>(m: map<K, V>, k: K)
    requires k in m
    ensures |m - {k}| == |m| - 1
  {
    assert (m - {k}).Keys == m.Keys - {k};
  }

  /** Any entry may be taken out first: the order of summation does not matter. */
  lemma {:induction false} SumRemove<K, V>(m: map<K, V>, f: (K, V) -> nat, k: K)
    requires k in m
    ensures Sum(m, f) == f(k, m[k]) + Sum(m - {k}, f)
    decreases |m|
  {
    var j :| j in m && Sum(m, f) == f(j, m[j]) + Sum(m - {j}, f);
    if j != k {
      RemoveShrinks(m, j);
      RemoveShrinks(m, k);
      SumRemove(m - {j}, f, k);
      SumRemove(m - {k}, f, j);
      assert m - {j} - {k} == m - {k} - {j};
    }
  }

  lemma SumTake<K, V>(m: map<K, V>, f: (K, V) -> nat, k: K)
    ensures Sum(m, f) == (if k in m then f(k, m[k]) else 0) + Sum(m - {k}, f)
  {
    if k in m {
      SumRemove(m, f, k);
    } else {
      assert m - {k} == m;
    }
  }

  lemma SumPut<K, V>(m: map<K, V>, f: (K, V) -> nat, k: K, v: V)
    ensures Sum(m[k := v], f) == f(k, v) + Sum(m - {k}, f)
  {
    SumRemove(m[k := v], f, k);
    assert m[k := v] - {k} == m - {k};
  }

  lemma AddGrows<K, V>(m: map<K, V>, k: K, v: V)
    requires k !in m
    ensures |m[k := v]| == |m| + 1
  {
    assert m[k := v].Keys == m.Keys + {k};
  }

  /** One more entry. */
  lemma SumAdd<K, V>(m: map<K, V>, f: (K, V) -> nat, k: K, v: V)
    requires k !in m
    ensures Sum(m[k := v], f) == f(k, v) + Sum(m, f) && |m[k := v]| == |m| + 1
  {
    hide Sum;
    SumPut(m, f, k, v);
    assert m - {k} == m;
    AddGrows(m, k, v);
  }

  lemma {:induction false} SumBound<K, V>(m: map<K, V>, f: (K, V) -> nat, bound: nat)
    requires forall k :: k in m ==> f(k, m[k]) <= bound
    ensures Sum(m, f) <= |m| * bound
    decreases |m|
  {
    if m == map[] {
    } else {
      hide Sum;
      var k :| k in m;
      SumRemove(m, f, k);
      RemoveShrinks(m, k);
      SumBound(m - {k}, f, bound);
      OneMore(|m| - 1, bound);
    }
  }

  lemma OneMore(n: nat, b: nat)
    ensures (n + 1) * b == n * b + b
  {
  }

  lemma {:induction false} SumShrinks<K, V>(m: map<K, V>, f: (K, V) -> nat, gone: set<K>)
    ensures Sum(m - gone, f) <= Sum(m, f)
  {
    if gone == {} {
      assert m - gone == m;
    } else {
      var k :| k in gone;
      SumShrinks(m, f, gone - {k});
      assert m - (gone - {k}) - {k} == m - gone;
      SumTake(m - (gone - {k}), f, k);
    }
  }
}
