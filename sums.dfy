/**
 * Sums over the entries of a finite map. The validation counters of the
 * source are incremented while iterating hash maps and sets in an unspecified
 * order; a count is therefore stated as the sum of a map's values, which does
 * not depend on the order in which its entries are visited.
 */
module Sums {

  /** The sum of all values of `m`. */
  ghost function SumValues<K>(m: map<K, nat>): nat
    decreases |m|
  {
    if m == map[] then 0
    else
      assert m.Keys != {};
      var k :| k in m;
      assert |m - {k}| < |m| by { assert (m - {k}).Keys == m.Keys - {k}; }
      m[k] + SumValues(m - {k})
  }

  /** Any entry can be taken out first: the sum does not depend on the order of the visit. */
  lemma {:induction false} SumValuesRemove<K>(m: map<K, nat>, k: K)
    requires k in m
    ensures SumValues(m) == m[k] + SumValues(m - {k})
    decreases |m|
  {
    var j :| j in m && SumValues(m) == m[j] + SumValues(m - {j});
    if j != k {
      assert |m - {j}| < |m| by { assert (m - {j}).Keys == m.Keys - {j}; }
      assert |m - {k}| < |m| by { assert (m - {k}).Keys == m.Keys - {k}; }
      SumValuesRemove(m - {j}, k);
      SumValuesRemove(m - {k}, j);
      assert m - {j} - {k} == m - {k} - {j};
    }
  }

  /** Adding a fresh entry adds its value to the sum. */
  lemma SumValuesAdd<K>(m: map<K, nat>, k: K, v: nat)
    requires k !in m
    ensures SumValues(m[k := v]) == SumValues(m) + v
  {
    SumValuesRemove(m[k := v], k);
    assert m[k := v] - {k} == m;
  }

  /** The sum is zero exactly when every value is zero. */
  lemma {:induction false} SumValuesZero<K>(m: map<K, nat>)
    ensures SumValues(m) == 0 <==> forall k :: k in m ==> m[k] == 0
    decreases |m|
  {
    if m != map[] {
      var k :| k in m;
      SumValuesRemove(m, k);
      assert |m - {k}| < |m| by { assert (m - {k}).Keys == m.Keys - {k}; }
      SumValuesZero(m - {k});
      assert forall j :: j in m && j != k ==> j in m - {k};
    }
  }

  /** Every single value is bounded by the sum. */
  lemma {:induction false} SumValuesBound<K>(m: map<K, nat>, k: K)
    requires k in m
    ensures m[k] <= SumValues(m)
  {
    SumValuesRemove(m, k);
  }
}
