/**
  Ruby's Hash as the option-building code uses it: a map that remembers the
  order in which its keys were first inserted. A hash is a sequence of
  key/value pairs; `Store` is both `h[k] = v` and `h.merge(k => v)`, which
  keep an existing key at its old position and append a new one at the end.
 */
module OrderedHash {
  import opened Wrappers

  type Hash<K, V> = seq<(K, V)>

  /** The keys of `h`, in insertion order. */
  function Keys<K, V>(h: Hash<K, V>): (ks: seq<K>)
    ensures |ks| == |h|
    ensures forall i :: 0 <= i < |h| ==> ks[i] == h[i].0
  {
    if h == [] then [] else [h[0].0] + Keys(h[1..])
  }

  /** No key occurs twice, as in every Ruby hash. */
  predicate DistinctKeys<K(==), V>(h: Hash<K, V>)
  {
    forall i, j :: 0 <= i < j < |h| ==> h[i].0 != h[j].0
  }

  /** `h[k]`: the value stored under `k`, or None when `k` is absent. */
  function Get<K(==), V>(h: Hash<K, V>, k: K): (r: Option<V>)
    ensures r.None? <==> k !in Keys(h)
    ensures r.Some? ==> (k, r.value) in h
  {
    if h == [] then None
    else if h[0].0 == k then Some(h[0].1)
    else Get(h[1..], k)
  }

  /** `h[k] = v`, equally `h.merge(k => v)`: a new key goes last, an existing key keeps its place. */
  function Store<K(==,!new), V>(h: Hash<K, V>, k: K, v: V): (r: Hash<K, V>)
    ensures k !in Keys(h) ==> r == h + [(k, v)]
    ensures k in Keys(h) ==> Keys(r) == Keys(h)
  {
    if h == [] then [(k, v)]
    else if h[0].0 == k then [(k, v)] + h[1..]
    else [h[0]] + Store(h[1..], k, v)
  }

  /** After a store, `k` maps to the stored value and every other key to what it mapped to before. */
  lemma {:induction false} StoreGet<K(!new), V>(h: Hash<K, V>, k: K, v: V, k': K)
    ensures Get(Store(h, k, v), k') == if k' == k then Some(v) else Get(h, k')
  {
    if h != [] && h[0].0 != k {
      StoreGet(h[1..], k, v, k');
    }
  }

  /** A store never introduces a duplicate key. */
  lemma {:induction false} StoreDistinct<K(!new), V>(h: Hash<K, V>, k: K, v: V)
    requires DistinctKeys(h)
    ensures DistinctKeys(Store(h, k, v))
  {
    if h != [] && h[0].0 != k {
      StoreDistinct(h[1..], k, v);
      var r := Store(h[1..], k, v);
      assert h[0].0 !in Keys(h[1..]) by {
        forall i | 0 <= i < |h| - 1 ensures Keys(h[1..])[i] != h[0].0 {
          assert h[1..][i] == h[i + 1];
        }
      }
      assert h[0].0 !in Keys(r) by {
        if k !in Keys(h[1..]) {
          assert Keys(r) == Keys(h[1..]) + [k];
        }
      }
      assert Store(h, k, v) == [h[0]] + r;
      forall i, j | 0 <= i < j < |r| + 1
        ensures ([h[0]] + r)[i].0 != ([h[0]] + r)[j].0
      {
        if i == 0 {
          assert ([h[0]] + r)[j].0 == Keys(r)[j - 1];
        }
      }
    }
  }

  /** Storing a key no entry carries appends it. */
  lemma StoreNew<K(!new), V>(h: Hash<K, V>, k: K, v: V)
    requires forall i :: 0 <= i < |h| ==> h[i].0 != k
    ensures Store(h, k, v) == h + [(k, v)]
  {
    assert k !in Keys(h);
  }
}
