/** Totals over finite maps. */
module Sums {

  ghost function Total(m: map<nat, real>): real {
    if m == map[] then 0.0
    else
      var k :| k in m;
      m[k] + Total(m - {k})
  }

  /** The total does not depend on which entry is taken first. */
  lemma {:induction false} TakeOut(m: map<nat, real>, k: nat)
    requires k in m
    ensures Total(m) == m[k] + Total(m - {k})
    decreases |m|
  {
    var j :| j in m && Total(m) == m[j] + Total(m - {j});
    if j != k {
      TakeOut(m - {j}, k);
      assert (m - {j}) - {k} == (m - {k}) - {j};
      TakeOut(m - {k}, j);
    }
  }

  lemma PutIn(m: map<nat, real>, k: nat, v: real)
    requires k !in m
    ensures Total(m[k := v]) == Total(m) + v
  {
    TakeOut(m[k := v], k);
    assert m[k := v] - {k} == m;
  }

  predicate Positive(m: map<nat, real>) {
    forall k :: k in m ==> m[k] > 0.0
  }

  lemma {:induction false} PositiveTotal(m: map<nat, real>)
    requires Positive(m)
    ensures Total(m) >= 0.0
    ensures m == map[] <==> Total(m) == 0.0
    decreases |m|
  {
    if m != map[] {
      var k :| k in m && Total(m) == m[k] + Total(m - {k});
      PositiveTotal(m - {k});
    }
  }
}
