/**
 * The ordered adapter: forwards `get`, `insert` and `iter` to an ordered
 * map. Its state is modelled as an association sequence kept in strictly
 * ascending key order, which is the order its `iter` yields.
 */
module BTreeMapAdapter {
  import opened Wrappers
  import opened KeyOrder
  import MapLike

  type Entry<V> = (string, V)

  /** Keys strictly ascend along `s`. */
  ghost predicate Ascending<V>(s: seq<Entry<V>>) {
    forall i, j :: 0 <= i < j < |s| ==> Less(s[i].0, s[j].0)
  }

  /** Every key of `s` is strictly above `b`. */
  ghost predicate AllAbove<V>(b: string, s: seq<Entry<V>>) {
    forall i :: 0 <= i < |s| ==> Less(b, s[i].0)
  }

  /** The map an association sequence stands for (the first entry for a key wins). */
  ghost function ToMap<V>(s: seq<Entry<V>>): map<string, V> {
    if s == [] then map[] else ToMap(s[1..])[s[0].0 := s[0].1]
  }

  /** A key below the first key of an ascending sequence is absent from it. */
  lemma {:induction false} BelowAbsent<V>(k: string, s: seq<Entry<V>>)
    requires Ascending(s) && s != [] && Less(k, s[0].0)
    ensures k !in ToMap(s)
  {
    LessIrreflexive(k);
    if |s| > 1 {
      LessTransitive(k, s[0].0, s[1].0);
      BelowAbsent(k, s[1..]);
    }
  }

  /** Ordered search: stops at the first key that is not below `k`. */
  function Find<V>(s: seq<Entry<V>>, k: string): (r: Option<V>)
    requires Ascending(s)
    ensures r == MapLike.Lookup(ToMap(s), k)
  {
    if s == [] then None
    else if s[0].0 == k then Some(s[0].1)
    else if Less(k, s[0].0) then BelowAbsent(k, s); None
    else Find(s[1..], k)
  }

  /** Ordered insertion: replaces the entry for `k` or splices a new one in place. */
  function InsertSorted<V>(s: seq<Entry<V>>, k: string, v: V): (r: seq<Entry<V>>)
    ensures ToMap(r) == ToMap(s)[k := v]
  {
    if s == [] then [(k, v)]
    else if s[0].0 == k then assert ([(k, v)] + s[1..])[1..] == s[1..]; [(k, v)] + s[1..]
    else if Less(k, s[0].0) then assert ([(k, v)] + s)[1..] == s; [(k, v)] + s
    else
      var r := [s[0]] + InsertSorted(s[1..], k, v);
      assert r[1..] == InsertSorted(s[1..], k, v);
      r
  }

  lemma {:induction false} AboveInsert<V>(b: string, s: seq<Entry<V>>, k: string, v: V)
    requires AllAbove(b, s) && Less(b, k)
    ensures AllAbove(b, InsertSorted(s, k, v))
  {
    if s != [] && s[0].0 != k && !Less(k, s[0].0) {
      AboveInsert(b, s[1..], k, v);
    }
  }

  /** Insertion keeps the keys strictly ascending. */
  lemma {:induction false} InsertSortedAscending<V>(s: seq<Entry<V>>, k: string, v: V)
    requires Ascending(s)
    ensures Ascending(InsertSorted(s, k, v))
  {
    if s == [] {
    } else if s[0].0 == k {
    } else if Less(k, s[0].0) {
      forall j | 0 <= j < |s| ensures Less(k, s[j].0) {
        if j > 0 { LessTransitive(k, s[0].0, s[j].0); }
      }
    } else {
      LessTotal(k, s[0].0);
      InsertSortedAscending(s[1..], k, v);
      AboveInsert(s[0].0, s[1..], k, v);
    }
  }

  /** An ascending sequence lists its map, each key once. */
  lemma {:induction false} AscendingLists<V>(s: seq<Entry<V>>)
    requires Ascending(s)
    ensures MapLike.Lists(ToMap(s), s)
  {
    if s != [] {
      var t := s[1..];
      AscendingLists(t);
      if t != [] { BelowAbsent(s[0].0, t); }
      forall i, j | 0 <= i < j < |s| ensures s[i].0 != s[j].0 {
        LessIrreflexive(s[i].0);
      }
      forall k | k in ToMap(s) ensures exists i :: 0 <= i < |s| && s[i].0 == k {
        if k != s[0].0 {
          var i :| 0 <= i < |t| && t[i].0 == k;
          assert s[i + 1].0 == k;
        }
      }
    }
  }

  class BTreeMap<V> {
    /** The entries of the underlying ordered map, in key order. */
    var entries: seq<Entry<V>>

    ghost predicate Valid()
      reads this
    {
      Ascending(entries)
    }

    /** The map the container holds. */
    ghost function Model(): map<string, V>
      reads this
    {
      ToMap(entries)
    }

    /** An empty map. */
    constructor ()
      ensures Valid() && Model() == map[]
    {
      entries := [];
    }

    /** `get`: reads the map and changes nothing. */
    function Get(k: string): (r: Option<V>)
      reads this
      requires Valid()
      ensures r == MapLike.Lookup(Model(), k)
    {
      Find(entries, k)
    }

    /** `insert`: upserts `k` and hands back the value it displaced. */
    method Insert(k: string, v: V) returns (prev: Option<V>)
      requires Valid()
      modifies this
      ensures Valid()
      ensures (Model(), prev) == MapLike.Upsert(old(Model()), k, v)
      ensures prev == MapLike.Lookup(old(Model()), k)
      ensures Get(k) == Some(v)
      ensures forall j :: j != k ==> Get(j) == MapLike.Lookup(old(Model()), j)
      ensures |Model()| == if prev.Some? then old(|Model()|) else old(|Model()|) + 1
    {
      prev := Find(entries, k);
      InsertSortedAscending(entries, k, v);
      entries := InsertSorted(entries, k, v);
    }

    /** `iter`: every entry exactly once, keys strictly ascending. */
    function Iter(): (s: seq<Entry<V>>)
      reads this
      requires Valid()
      ensures MapLike.Lists(Model(), s)
      ensures |s| == |Model()|
      ensures forall i, j :: 0 <= i < j < |s| ==> Less(s[i].0, s[j].0)
    {
      AscendingLists(entries);
      MapLike.ListsLength(Model(), entries);
      entries
    }
  }
}
