/** The hash-backed adapter: forwards `get`, `insert` and `iter` to a hash table. */
module HashMapAdapter {
  import opened Wrappers
  import MapLike

  class HashMap<K(==), V> {
    /** The entries of the underlying hash table. */
    var m: map<K, V>
    /** The order this table happens to iterate in; any listing of its entries. */
    ghost var listing: seq<(K, V)>

    ghost predicate Valid()
      reads this
    {
      MapLike.Lists(m, listing)
    }

    /** An empty table. */
    constructor ()
      ensures Valid() && m == map[]
    {
      m := map[];
      listing := [];
    }

    /** `get`: reads the table and changes nothing. */
    function Get(k: K): (r: Option<V>)
      reads this
      ensures r.Some? <==> k in m
      ensures r.Some? ==> r.value == m[k]
    {
      MapLike.Lookup(m, k)
    }

    /** `insert`: upserts `k` and hands back the value it displaced. */
    method Insert(k: K, v: V) returns (prev: Option<V>)
      requires Valid()
      modifies this
      ensures Valid()
      ensures (m, prev) == MapLike.Upsert(old(m), k, v)
      ensures prev == MapLike.Lookup(old(m), k)
      ensures Get(k) == Some(v)
      ensures forall j :: j != k ==> Get(j) == MapLike.Lookup(old(m), j)
      ensures |m| == if prev.Some? then old(|m|) else old(|m|) + 1
    {
      prev := MapLike.Lookup(m, k);
      m := m[k := v];
      ghost var some := MapLike.Enumerate(m);
      ghost var order :| MapLike.Lists(m, order);
      listing := order;
    }

    /** `iter`: every entry exactly once, in an order that is not specified. */
    ghost function Iter(): (s: seq<(K, V)>)
      reads this
      requires Valid()
      ensures MapLike.Lists(m, s)
      ensures |s| == |m|
    {
      MapLike.ListsLength(m, listing);
      listing
    }
  }
}
