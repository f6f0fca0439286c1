/**
 * A Python dict as the sequence of its entries in insertion order.
 * Keys are distinct; iteration visits the entries in sequence order.
 */
module Dicts {
  import opened Seqs

  type Dict<K, V> = seq<(K, V)>

  /** The keys in iteration order. */
  function Keys<K, V>(d: Dict<K, V>): (ks: seq<K>)
    ensures |ks| == |d| && forall i :: 0 <= i < |d| ==> ks[i] == d[i].0
  {
    if d == [] then [] else [d[0].0] + Keys(d[1..])
  }

  /** The dict invariant: no key occurs twice. */
  predicate Valid<K(==), V>(d: Dict<K, V>) {
    Distinct(Keys(d))
  }

  /**
   * Item assignment `d[k] = v`: an existing key keeps its position and gets the
   * new value; a new key is appended after all existing ones.
   */
  function Put<K(==), V>(d: Dict<K, V>, k: K, v: V): (r: Dict<K, V>)
    requires Valid(d)
    ensures Valid(r)
    ensures Keys(r) == if k in Keys(d) then Keys(d) else Keys(d) + [k]
    ensures k in Keys(d) ==>
              |r| == |d| && forall i :: 0 <= i < |d| ==> r[i] == (if d[i].0 == k then (k, v) else d[i])
    ensures k !in Keys(d) ==> r == d + [(k, v)]
  {
    if d == [] then [(k, v)]
    else if d[0].0 == k then
      assert Keys(d)[1..] == Keys(d[1..]);
      [(k, v)] + d[1..]
    else
      assert Keys(d)[1..] == Keys(d[1..]);
      var rest := Put(d[1..], k, v);
      assert Keys([d[0]] + rest) == [d[0].0] + Keys(rest);
      [d[0]] + rest
  }

  /** After `d[k] = v`, the entry under `k` holds `v` and every other entry was already in `d`. */
  lemma PutEntry<K, V>(d: Dict<K, V>, k: K, v: V, e: (K, V))
    requires Valid(d)
    requires e in Put(d, k, v)
    ensures e.0 == k ==> e.1 == v
    ensures e.0 != k ==> e in d
  {
    var r := Put(d, k, v);
    var i :| 0 <= i < |r| && r[i] == e;
    if k in Keys(d) {
      assert r[i] == (if d[i].0 == k then (k, v) else d[i]);
    } else {
      assert r == d + [(k, v)];
    }
  }
}
