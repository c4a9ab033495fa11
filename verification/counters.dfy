/** Python's `Counter` and `defaultdict(int)` as maps to naturals: a key that
    is absent reads as 0, and `sum(c.values())` is `Sum(c)`. A dict's
    iteration order is a sequence that lists each of its keys once. */
module Counters {

  /** `c[k]` on a counter: the stored count, or 0 when `k` was never counted. */
  function Get<K>(c: map<K, nat>, k: K): nat
  {
    if k in c then c[k] else 0
  }

  /** The sum of all counts held in `c`. */
  ghost function Sum<K>(c: map<K, nat>): nat
    decreases |c|
  {
    if c == map[] then 0
    else
      var k :| k in c;
      assert |c - {k}| < |c| by { assert (c - {k}).Keys == c.Keys - {k}; }
      c[k] + Sum(c - {k})
  }

  /** The sum does not depend on which key is taken out first. */
  lemma {:induction false} SumRemove<K>(c: map<K, nat>, k: K)
    requires k in c
    ensures Sum(c) == c[k] + Sum(c - {k})
    decreases |c|
  {
    var j :| j in c && Sum(c) == c[j] + Sum(c - {j});
    if j != k {
      assert (c - {j}).Keys == c.Keys - {j};
      assert (c - {k}).Keys == c.Keys - {k};
      SumRemove(c - {j}, k);
      SumRemove(c - {k}, j);
      assert c - {j} - {k} == c - {k} - {j};
    }
  }

  /** Setting one count to `v` changes the sum by `v` minus the old count. */
  lemma SumUpdate<K>(c: map<K, nat>, k: K, v: nat)
    ensures Sum(c[k := v]) == Sum(c) - Get(c, k) + v
  {
    var c' := c[k := v];
    SumRemove(c', k);
    assert c' - {k} == c - {k};
    if k in c {
      SumRemove(c, k);
    } else {
      assert c - {k} == c;
    }
  }

  /** `c` with one count of `k` taken back: the key disappears when its
      count was 1. */
  function Decrement<K>(c: map<K, nat>, k: K): (d: map<K, nat>)
    requires k in c && c[k] > 0
    ensures d.Keys == if c[k] == 1 then c.Keys - {k} else c.Keys
    ensures forall j :: j in d ==> d[j] == if j == k then c[k] - 1 else c[j]
  {
    if c[k] == 1 then c - {k} else c[k := c[k] - 1]
  }

  /** Taking back one count lowers the sum by one. */
  lemma SumDecrement<K>(c: map<K, nat>, k: K)
    requires k in c && c[k] > 0
    ensures Sum(Decrement(c, k)) + 1 == Sum(c)
  {
    var d := Decrement(c, k);
    SumRemove(c, k);
    assert d - {k} == c - {k};
    if c[k] != 1 {
      SumRemove(d, k);
    }
  }

  /** No two keys of `m` map to the same value. */
  ghost predicate Injective<K, V>(m: map<K, V>)
  {
    forall a, b :: a in m && b in m && a != b ==> m[a] != m[b]
  }

  /** No key occurs twice in `order`. */
  predicate Distinct<K(==)>(order: seq<K>)
  {
    forall i, j :: 0 <= i < j < |order| ==> order[i] != order[j]
  }

  /** `order` is an iteration order of the key set `keys`. */
  ghost predicate Enumerates<K(!new)>(order: seq<K>, keys: set<K>)
  {
    Distinct(order) && forall k :: k in order <==> k in keys
  }

  /** Dropping the last key of an iteration order leaves an iteration order
      of the other keys. */
  lemma EnumeratesInit<K(!new)>(order: seq<K>, keys: set<K>)
    requires Enumerates(order, keys) && order != []
    ensures order[|order| - 1] !in order[..|order| - 1]
    ensures Enumerates(order[..|order| - 1], keys - {order[|order| - 1]})
  {
    var init, k := order[..|order| - 1], order[|order| - 1];
    assert order == init + [k];
  }

  /** The counts of `c` read along `order`, added up. */
  function SumAlong<K>(c: map<K, nat>, order: seq<K>): nat
  {
    if order == [] then 0
    else SumAlong(c, order[..|order| - 1]) + Get(c, order[|order| - 1])
  }

  /** Reading along an order that avoids `k` does not see `k`'s count. */
  lemma {:induction false} SumAlongAvoids<K>(c: map<K, nat>, order: seq<K>, k: K)
    requires k !in order
    ensures SumAlong(c - {k}, order) == SumAlong(c, order)
    decreases |order|
  {
    if order != [] {
      SumAlongAvoids(c, order[..|order| - 1], k);
    }
  }

  /** Adding up the counts in any iteration order gives the sum. */
  lemma {:induction false} SumAlongEnumeration<K(!new)>(c: map<K, nat>, order: seq<K>)
    requires Enumerates(order, c.Keys)
    ensures SumAlong(c, order) == Sum(c)
    decreases |order|
  {
    if order == [] {
      assert c == map[];
    } else {
      var init, k := order[..|order| - 1], order[|order| - 1];
      EnumeratesInit(order, c.Keys);
      assert (c - {k}).Keys == c.Keys - {k};
      SumRemove(c, k);
      SumAlongEnumeration(c - {k}, init);
      SumAlongAvoids(c, init, k);
    }
  }
}
