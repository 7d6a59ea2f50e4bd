/** Sums over finite maps with integer values, and the "`m[k] += d` with a
    default of zero" update that both the ledger and the book rely on. */
module Sums {

  /** The sum of all values of `m`. */
  ghost function MapSum<K>(m: map<K, int>): int
    decreases |m|
  {
    if m == map[] then 0
    else
      var k :| k in m;
      assert |(m - {k}).Keys| < |m.Keys| by {
        assert (m - {k}).Keys == m.Keys - {k};
      }
      m[k] + MapSum(m - {k})
  }

  /** The sum does not depend on which key is taken out first. */
  lemma {:induction false} MapSumRemove<K>(m: map<K, int>, k: K)
    requires k in m
    ensures MapSum(m) == m[k] + MapSum(m - {k})
    decreases |m|
  {
    var j :| j in m && MapSum(m) == m[j] + MapSum(m - {j});
    if j != k {
      var mj, mk := m - {j}, m - {k};
      assert (mj - {k}) == (mk - {j});
      assert mj.Keys == m.Keys - {j} && mk.Keys == m.Keys - {k};
      MapSumRemove(mj, k);
      MapSumRemove(mk, j);
    }
  }

  /** Setting key `k` to `v` changes the sum by `v` minus what `k` held. */
  lemma MapSumUpdate<K>(m: map<K, int>, k: K, v: int)
    ensures MapSum(m[k := v]) == MapSum(m) - (if k in m then m[k] else 0) + v
  {
    var u := m[k := v];
    MapSumRemove(u, k);
    assert u - {k} == m - {k};
    if k in m {
      MapSumRemove(m, k);
    } else {
      assert m - {k} == m;
    }
  }

  /** A sum of positive values is positive as soon as there is one. */
  lemma {:induction false} MapSumPositive<K>(m: map<K, int>)
    requires forall k :: k in m ==> m[k] > 0
    ensures MapSum(m) >= 0
    ensures m != map[] ==> MapSum(m) > 0
    decreases |m|
  {
    if m != map[] {
      var k :| k in m;
      MapSumRemove(m, k);
      assert (m - {k}).Keys == m.Keys - {k};
      MapSumPositive(m - {k});
    }
  }

  /** The value at `k`, zero when `k` is absent. */
  function Get<K>(m: map<K, int>, k: K): int
  {
    if k in m then m[k] else 0
  }

  /** `m[k] += d`: inserts `k` with zero first when absent. */
  function Post<K>(m: map<K, int>, k: K, d: int): (r: map<K, int>)
    ensures r.Keys == m.Keys + {k}
    ensures r[k] == Get(m, k) + d
    ensures forall j :: j in m && j != k ==> r[j] == m[j]
  {
    m[k := Get(m, k) + d]
  }

  /** Posting `d` to one key raises the sum by exactly `d`. */
  lemma PostSum<K>(m: map<K, int>, k: K, d: int)
    ensures MapSum(Post(m, k, d)) == MapSum(m) + d
  {
    MapSumUpdate(m, k, Get(m, k) + d);
  }

}
