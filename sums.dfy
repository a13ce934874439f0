/** Sums over the values of a map, in no particular order of its keys: the meaning of a
  * counter's value, whatever order Go's map iteration visits the entries in. */
module Sums {
  /** The entry for `k`, or zero where the map has none (Go's zero value for a missing key). */
  function Get<K>(m: map<K, int>, k: K): (v: int)
    ensures k in m ==> v == m[k]
    ensures k !in m ==> v == 0
  {
    if k in m then m[k] else 0
  }

  /** Some key of a non-empty map: the one the sum takes first. */
  ghost function Pick<K>(m: map<K, int>): (k: K)
    requires |m| > 0
    ensures k in m
  {
    var k :| k in m; k
  }

  /** Removing a key of the map leaves one entry fewer. */
  lemma RemoveSize<K, V>(m: map<K, V>, k: K)
    requires k in m
    ensures |m - {k}| == |m| - 1
  {
    assert (m - {k}).Keys == m.Keys - {k};
  }

  /** The sum of the values of `m`, taking the entries in an arbitrary order. */
  ghost function Sum<K>(m: map<K, int>): int
    decreases |m|
  {
    if |m| == 0 then 0
    else
      var k := Pick(m);
      RemoveSize(m, k);
      m[k] + Sum(m - {k})
  }

  /** Any entry can be taken first: the sum does not depend on the order of the keys. */
  lemma {:induction false} SumRemove<K>(m: map<K, int>, k: K)
    requires k in m
    ensures Sum(m) == m[k] + Sum(m - {k})
    decreases |m|
  {
    var j := Pick(m);
    if j != k {
      RemoveSize(m, j);
      RemoveSize(m, k);
      SumRemove(m - {j}, k);
      SumRemove(m - {k}, j);
      assert m - {j} - {k} == m - {k} - {j};
    }
  }

  /** Setting the entry for `k` to `v` changes the sum by the difference to its old value. */
  lemma SumUpdate<K>(m: map<K, int>, k: K, v: int)
    ensures Sum(m[k := v]) == Sum(m) - Get(m, k) + v
  {
    SumRemove(m[k := v], k);
    if k in m {
      SumRemove(m, k);
      assert m[k := v] - {k} == m - {k};
    } else {
      assert m[k := v] - {k} == m;
    }
  }
}
