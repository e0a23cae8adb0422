/** Sums over the values of a finite map. */
module Sums {
  ghost function SumMap(m: map<nat, nat>): nat
    decreases |m|
  {
    if m == map[] then 0
    else var k :| k in m; m[k] + SumMap(m - {k})
  }

  /** The sum does not depend on the order in which the keys are taken. */
  lemma SumMapTake(m: map<nat, nat>, k: nat)
    requires k in m
    ensures SumMap(m) == m[k] + SumMap(m - {k})
    decreases |m|
  {
    var j :| j in m && SumMap(m) == m[j] + SumMap(m - {j});
    if j != k {
      SumMapTake(m - {j}, k);
      SumMapTake(m - {k}, j);
      assert m - {j} - {k} == m - {k} - {j};
    }
  }

  lemma SumMapPut(m: map<nat, nat>, k: nat, v: nat)
    requires k !in m
    ensures SumMap(m[k := v]) == SumMap(m) + v
  {
    SumMapTake(m[k := v], k);
    assert m[k := v] - {k} == m;
  }

  lemma SumMapReplace(m: map<nat, nat>, k: nat, v: nat)
    requires k in m
    ensures SumMap(m[k := v]) == SumMap(m) - m[k] + v
  {
    SumMapTake(m, k);
    SumMapPut(m - {k}, k, v);
    assert (m - {k})[k := v] == m[k := v];
  }

  /** If f sends the keys of m one-to-one to keys of n with larger values, m sums to no more than n. */
  lemma {:induction false} SumMapInto(m: map<nat, nat>, n: map<nat, nat>, f: map<nat, nat>)
    requires forall k :: k in m ==> k in f && f[k] in n && m[k] <= n[f[k]]
    requires forall j, k :: j in m && k in m && f[j] == f[k] ==> j == k
    ensures SumMap(m) <= SumMap(n)
    decreases |m|
  {
    if m != map[] {
      var k :| k in m;
      SumMapTake(m, k);
      SumMapTake(n, f[k]);
      SumMapInto(m - {k}, n - {f[k]}, f);
    }
  }
}
