/** Sums over the values of a finite map. */
module FiniteSums {

  ghost function Total<K, T>(m: map<K, T>, f: T -> int): int {
    if m == map[] then 0
    else
      var k :| k in m;
      f(m[k]) + Total(m - {k}, f)
  }

  lemma {:induction false} TotalRemove<K, T>(m: map<K, T>, k: K, f: T -> int)
    requires k in m
    ensures Total(m, f) == f(m[k]) + Total(m - {k}, f)
    decreases |m|
  {
    var j :| j in m && Total(m, f) == f(m[j]) + Total(m - {j}, f);
    if j != k {
      TotalRemove(m - {j}, k, f);
      TotalRemove(m - {k}, j, f);
      assert (m - {j}) - {k} == (m - {k}) - {j};
    }
  }

  lemma TotalInsert<K, T>(m: map<K, T>, k: K, v: T, f: T -> int)
    ensures Total(m[k := v], f) == f(v) + Total(m - {k}, f)
  {
    TotalRemove(m[k := v], k, f);
    assert m[k := v] - {k} == m - {k};
  }

  lemma TotalUpdate<K, T>(m: map<K, T>, k: K, v: T, f: T -> int)
    requires k in m
    ensures Total(m[k := v], f) == Total(m, f) - f(m[k]) + f(v)
  {
    TotalInsert(m, k, v, f);
    TotalRemove(m, k, f);
  }

  lemma TotalAdd<K, T>(m: map<K, T>, k: K, v: T, f: T -> int)
    requires k !in m
    ensures Total(m[k := v], f) == Total(m, f) + f(v)
  {
    TotalInsert(m, k, v, f);
    assert m - {k} == m;
  }

  /** A map is worth at most another that has at least its keys, each worth at least as much. */
  lemma {:induction false} TotalAtMost<K, S, T>(a: map<K, S>, f: S -> int, b: map<K, T>, g: T -> int)
    requires forall k | k in a :: f(a[k]) <= if k in b then g(b[k]) else 0
    requires forall k | k in b :: 0 <= g(b[k])
    ensures Total(a, f) <= Total(b, g)
    decreases |a| + |b|
  {
    if a == map[] {
      if b != map[] {
        var k :| k in b;
        TotalRemove(b, k, g);
        TotalAtMost(a, f, b - {k}, g);
      }
    } else {
      var k :| k in a;
      TotalRemove(a, k, f);
      if k in b {
        TotalRemove(b, k, g);
        TotalAtMost(a - {k}, f, b - {k}, g);
      } else {
        TotalAtMost(a - {k}, f, b, g);
      }
    }
  }
}
