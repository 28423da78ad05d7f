/**
 * The `MapLike` contract: the associative-map behaviour that both adapters
 * promise, stated once over Dafny's built-in `map`.
 */
module MapLike {
  import opened Wrappers

  /** `get`: the value stored under `k`, or `None` when `k` is absent. */
  function Lookup<K, V>(m: map<K, V>, k: K): (r: Option<V>)
    ensures r.Some? <==> k in m
    ensures r.Some? ==> r.value == m[k]
  {
    if k in m then Some(m[k]) else None
  }

  /**
   * `insert`: the new map and the displaced value. It is an upsert: it
   * returns what `get` gave before, `get` then yields the new value, every
   * other key is untouched and the entry count grows only for a new key.
   */
  function Upsert<K, V>(m: map<K, V>, k: K, v: V): (r: (map<K, V>, Option<V>))
    ensures r.1 == Lookup(m, k)
    ensures r.1.None? <==> k !in m
    ensures Lookup(r.0, k) == Some(v)
    ensures forall j :: j in m && j != k ==> Lookup(r.0, j) == Lookup(m, j)
    ensures r.0.Keys == m.Keys + {k}
    ensures |r.0| == if k in m then |m| else |m| + 1
  {
    (m[k := v], Lookup(m, k))
  }

  /** `iter`: `s` lists every entry of `m`, each key once, in some order. */
  ghost predicate Lists<K, V>(m: map<K, V>, s: seq<(K, V)>)
    ensures Lists(m, s) ==> forall i :: 0 <= i < |s| ==> s[i] in m.Items
    ensures Lists(m, s) ==> m.Keys == set i | 0 <= i < |s| :: s[i].0
  {
    && (forall i :: 0 <= i < |s| ==> s[i].0 in m && m[s[i].0] == s[i].1)
    && (forall i, j :: 0 <= i < j < |s| ==> s[i].0 != s[j].0)
    && (forall k :: k in m ==> exists i :: 0 <= i < |s| && s[i].0 == k)
  }

  /** A listing has exactly one element per entry. */
  lemma {:induction false} ListsLength<K, V>(m: map<K, V>, s: seq<(K, V)>)
    requires Lists(m, s)
    ensures |s| == |m|
  {
    if s == [] {
      ListsEmpty(m);
    } else {
      var rest := m - {s[0].0};
      ListsTail(m, s);
      ListsLength(rest, s[1..]);
      assert m.Keys == rest.Keys + {s[0].0};
    }
  }

  lemma ListsEmpty<K, V>(m: map<K, V>)
    requires Lists(m, [])
    ensures m == map[]
  {
    assert m.Keys == {};
  }

  /** Dropping the first element of a listing lists the map without its key. */
  lemma ListsTail<K, V>(m: map<K, V>, s: seq<(K, V)>)
    requires s != [] && Lists(m, s)
    ensures Lists(m - {s[0].0}, s[1..])
  {
    var rest, t := m - {s[0].0}, s[1..];
    forall j | j in rest ensures exists i :: 0 <= i < |t| && t[i].0 == j {
      var i :| 0 <= i < |s| && s[i].0 == j;
      assert t[i - 1].0 == j;
    }
  }

  /** Some listing of `m`: the order in which a hash table yields its entries is not specified. */
  ghost function Enumerate<K, V>(m: map<K, V>): (s: seq<(K, V)>)
    ensures Lists(m, s)
    decreases |m|
  {
    if m == map[] then []
    else
      var k :| k in m;
      var rest := m - {k};
      assert |rest| < |m| by { assert m.Keys == rest.Keys + {k}; }
      var t := Enumerate(rest);
      ListsCons(m, k, t);
      [(k, m[k])] + t
  }

  /** Putting an entry in front of a listing of the remaining entries lists the whole map. */
  lemma ListsCons<K, V>(m: map<K, V>, k: K, t: seq<(K, V)>)
    requires k in m && Lists(m - {k}, t)
    ensures Lists(m, [(k, m[k])] + t)
  {
    var s := [(k, m[k])] + t;
    forall j | j in m ensures exists i :: 0 <= i < |s| && s[i].0 == j {
      if j != k {
        assert j in m - {k};
        var i :| 0 <= i < |t| && t[i].0 == j;
        assert s[i + 1].0 == j;
      } else {
        assert s[0].0 == j;
      }
    }
  }
}
