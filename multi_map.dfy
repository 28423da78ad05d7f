/**
 * The `MultiMap` extension: `get_only`, written once over the value an
 * adapter's `get` returns, so that it serves every container whose values
 * are sequences.
 */
module MultiMap {
  import opened Wrappers
  import MapLike

  /**
   * `get_only`: the sole element of the sequence that was looked up; `None`
   * when the key was absent or its sequence does not have exactly one element.
   */
  function GetOnly<V>(found: Option<seq<V>>): (r: Option<V>)
    ensures found.None? ==> r.None?
    ensures found.Some? && |found.value| != 1 ==> r.None?
    ensures found.Some? && |found.value| == 1 ==> r == Some(found.value[0])
  {
    found.AndThen((v: seq<V>) => if |v| == 1 then Some(v[0]) else None)
  }

  /** On a container holding `m`, `get_only(k)` yields `x` exactly when `m[k] == [x]`. */
  lemma GetOnlyExactly<K, V>(m: map<K, seq<V>>, k: K, x: V)
    ensures GetOnly(MapLike.Lookup(m, k)) == Some(x) <==> k in m && m[k] == [x]
  {
    if k in m && |m[k]| == 1 {
      assert m[k] == [m[k][0]];
    }
  }
}
