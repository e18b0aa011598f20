/** The sum of a numeric column of a table, and the size of a set of keys. */
module TableSums {

  ghost function Sum(m: map<nat, int>): int
    decreases m.Keys
  {
    if m == map[] then 0
    else
      var k :| k in m;
      assert (m - {k}).Keys < m.Keys;
      m[k] + Sum(m - {k})
  }

  function At(m: map<nat, int>, k: nat): int { if k in m then m[k] else 0 }

  lemma {:induction false} SumDrop(m: map<nat, int>, k: nat)
    ensures Sum(m - {k}) == Sum(m) - At(m, k)
    decreases m.Keys
  {
    if k !in m {
      assert m - {k} == m;
    } else {
      var p :| p in m && Sum(m) == m[p] + Sum(m - {p});
      if p != k {
        assert (m - {p}).Keys < m.Keys;
        SumDrop(m - {p}, k);
        assert m - {p} - {k} == m - {k} - {p};
        assert (m - {k}).Keys < m.Keys;
        SumDrop(m - {k}, p);
      }
    }
  }

  lemma SumPut(m: map<nat, int>, k: nat, v: int)
    ensures Sum(m[k := v]) == Sum(m) - At(m, k) + v
  {
    SumDrop(m, k);
    SumDrop(m[k := v], k);
    assert m[k := v] - {k} == m - {k};
  }

  lemma {:induction false} Subset(a: set<nat>, b: set<nat>)
    requires a <= b
    ensures |a| <= |b|
    decreases a
  {
    if a != {} {
      var x :| x in a;
      Subset(a - {x}, b - {x});
    }
  }
}
