/** Sums over the values of a map, whatever the order its keys are taken in. */
module MapSums {
  ghost function Sum<K(!new), V(!new)>(m: map<K, V>, f: V -> int): int
    decreases |m|
  {
    if m == map[] then 0
    else
      var k :| k in m;
      f(m[k]) + Sum(m - {k}, f)
  }

  /** The sum may take any key first. */
  lemma {:induction false} SumAny<K(!new), V(!new)>(m: map<K, V>, f: V -> int, k: K)
    requires k in m
    ensures Sum(m, f) == f(m[k]) + Sum(m - {k}, f)
    decreases |m|
  {
    var first :| first in m && Sum(m, f) == f(m[first]) + Sum(m - {first}, f);
    if first != k {
      SumAny(m - {first}, f, k);
      SumAny(m - {k}, f, first);
      assert m - {first} - {k} == m - {k} - {first};
    }
  }

  /** Setting a key adds what the new value counts for more than the old one. */
  lemma SumUpdate<K(!new), V(!new)>(m: map<K, V>, f: V -> int, k: K, v: V)
    ensures Sum(m[k := v], f) == Sum(m, f) + f(v) - (if k in m then f(m[k]) else 0)
  {
    SumAny(m[k := v], f, k);
    if k in m {
      SumAny(m, f, k);
      assert m[k := v] - {k} == m - {k};
    } else {
      assert m[k := v] - {k} == m;
    }
  }

  lemma SumEmpty<K(!new), V(!new)>(f: V -> int)
    ensures Sum<K, V>(map[], f) == 0
  {
  }

  /** Two measures that agree on the values have one sum. */
  lemma {:induction false} SumSame<K(!new), V(!new)>(m: map<K, V>, f: V -> int, g: V -> int)
    requires forall k :: k in m ==> f(m[k]) == g(m[k])
    ensures Sum(m, f) == Sum(m, g)
    decreases |m|
  {
    if m != map[] {
      var k :| k in m;
      SumAny(m, f, k);
      SumAny(m, g, k);
      SumSame(m - {k}, f, g);
    }
  }
}
