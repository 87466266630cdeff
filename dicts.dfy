/**
  Python's `dict` as the heuristics use it: keys in insertion order,
  assignment to a present key replacing its value in place, `pop` removing
  a key. A dictionary is the sequence of its items, `d.items()`.
*/
module Dicts {
  import opened Wrappers

  type Dict<K, V> = seq<(K, V)>

  /** `list(d.keys())`. */
  function Keys<K, V>(d: Dict<K, V>): seq<K> {
    seq(|d|, i requires 0 <= i < |d| => d[i].0)
  }

  /** What every Python dict satisfies: no key appears twice. */
  ghost predicate DistinctKeys<K, V>(d: Dict<K, V>) {
    forall i, j | 0 <= i < j < |d| :: d[i].0 != d[j].0
  }

  /** `d.get(k)`: the value of the first item with key `k`. */
  function Get<K(==), V>(d: Dict<K, V>, k: K): Option<V>
    decreases |d|
  {
    if d == [] then None else if d[0].0 == k then Some(d[0].1) else Get(d[1..], k)
  }

  /** `d[k] = v`: replaces the value of a present key where it stands, or appends a new item. */
  function Put<K(==), V>(d: Dict<K, V>, k: K, v: V): Dict<K, V>
    decreases |d|
  {
    if d == [] then [(k, v)]
    else if d[0].0 == k then [(k, v)] + d[1..]
    else [d[0]] + Put(d[1..], k, v)
  }

  /** `d.pop(k, None)` for its effect on `d`: the item with key `k`, if any, is removed. */
  function Pop<K(==), V>(d: Dict<K, V>, k: K): Dict<K, V>
    decreases |d|
  {
    if d == [] then [] else if d[0].0 == k then d[1..] else [d[0]] + Pop(d[1..], k)
  }

  /** A key has a value exactly when it is one of the keys, and that value belongs to an item. */
  lemma {:induction false} GetKeys<K, V>(d: Dict<K, V>, k: K)
    ensures Get(d, k).Some? <==> k in Keys(d)
    ensures Get(d, k).Some? ==> (k, Get(d, k).value) in d
    decreases |d|
  {
    if d != [] {
      GetKeys(d[1..], k);
      assert Keys(d) == [d[0].0] + Keys(d[1..]);
    }
  }

  /** After `d[k] = v`, `k` reads `v` and every other key reads what it read before. */
  lemma {:induction false} PutGet<K, V>(d: Dict<K, V>, k: K, v: V, k': K)
    ensures Get(Put(d, k, v), k') == if k' == k then Some(v) else Get(d, k')
    decreases |d|
  {
    if d != [] && d[0].0 != k {
      PutGet(d[1..], k, v, k');
    }
  }

  /** `d[k] = v` keeps the key order, appending `k` only when it is new. */
  lemma {:induction false} PutKeys<K, V>(d: Dict<K, V>, k: K, v: V)
    ensures Keys(Put(d, k, v)) == if k in Keys(d) then Keys(d) else Keys(d) + [k]
    decreases |d|
  {
    if d != [] {
      assert Keys(d) == [d[0].0] + Keys(d[1..]);
      if d[0].0 != k {
        PutKeys(d[1..], k, v);
        assert Keys(Put(d, k, v)) == [d[0].0] + Keys(Put(d[1..], k, v));
      } else {
        assert Keys(Put(d, k, v)) == [k] + Keys(d[1..]);
      }
    }
  }

  /** Keys never repeat, so the items always form a valid dict. */
  lemma PutDistinct<K, V>(d: Dict<K, V>, k: K, v: V)
    requires DistinctKeys(d)
    ensures DistinctKeys(Put(d, k, v))
  {
    PutKeys(d, k, v);
    var d' := Put(d, k, v);
    var ks := Keys(d');
    forall i, j | 0 <= i < j < |d'|
      ensures d'[i].0 != d'[j].0
    {
      assert ks[i] == d'[i].0 && ks[j] == d'[j].0;
      if k !in Keys(d) && j == |d| {
        assert ks[i] == Keys(d)[i];
      } else {
        assert ks[i] == Keys(d)[i] && ks[j] == Keys(d)[j];
      }
    }
  }

  /** After `d.pop(k)` the key is gone, and every other key reads what it read before. */
  lemma {:induction false} PopGet<K, V>(d: Dict<K, V>, k: K, k': K)
    requires DistinctKeys(d)
    ensures Get(Pop(d, k), k') == if k' == k then None else Get(d, k')
    ensures k !in Keys(Pop(d, k))
    decreases |d|
  {
    if d != [] {
      assert DistinctKeys(d[1..]);
      if d[0].0 == k {
        GetKeys(d[1..], k);
        GetKeys(d[1..], k');
      } else {
        PopGet(d[1..], k, k');
        assert Keys(Pop(d, k)) == [d[0].0] + Keys(Pop(d[1..], k));
      }
    }
  }
}
