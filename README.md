# maputils, modelled in Dafny

The `maputils` crate lets generic code run over either a hash table or an
ordered map. The `MapLike` trait asks for three operations: `get`, `insert`
and `iter`. Two adapters implement it by forwarding to `HashMap` and
`BTreeMap`. The `MultiMap` extension adds `get_only` to every `MapLike`
whose values are vectors. `get_only` returns the element of a vector that
has exactly one element, and `None` in all other cases.

The model is organised as follows.

- `MapLike` (`map_like.dfy`) states the trait's contract once, over
  Dafny's `map`. `Lookup` is `get`. `Upsert` is `insert`, with properties
  proved about it. `Lists` says what a correct `iter` result is. Dafny has
  no traits here, so each adapter ties its own operations to these
  definitions.
- `HashMapAdapter.HashMap` (`hash_map.dfy`) is a class whose state is a
  `map<K, V>`. `Insert` updates that state in place. A ghost field holds
  the order the table happens to iterate in. Each `Insert` picks that
  order anew, as any listing of the entries. `Iter` returns it, so no order
  is promised.
- `KeyOrder` (`key_order.dfy`) defines the order on `String` keys:
  lexicographic by code point, which is Rust's `Ord` for `String`. It
  proves that this is a strict total order.
- `BTreeMapAdapter.BTreeMap` (`btree_map.dfy`) is a class whose state is
  an association sequence. The keys in it stay strictly ascending. `Get`
  is an ordered search. `Insert` is an ordered splice that is proved to
  keep the keys ascending. `Iter` yields the entries in ascending key
  order.
- `MultiMap.GetOnly` (`multi_map.dfy`) is written once, over the `Option`
  that any adapter's `Get` returns. This mirrors the blanket
  `self.get(k).and_then(..)`.
- `BasicUsage` (`basic_usage.dfy`) is the crate's `basic_usage` test
  restated as a verified method. It uses the hash adapter, as the test
  does. A second method states the same steps on the ordered adapter.

## Model

| member | source | states |
|---|---|---|
| `Wrappers.Option.AndThen` | src/lib.rs:60-61 | `and_then` gives `None` on `None` and applies the closure to a present value |
| `MapLike.Lookup` | src/lib.rs:10-13 | `get` gives `Some(m[k])` exactly when `k` is present, and `None` otherwise |
| `MapLike.Lists` | src/lib.rs:16 | a correct `iter` result: every element is an entry of the map, keys are pairwise distinct, and every key appears; so the listed keys are exactly the map's keys |
| `MapLike.Upsert` | src/lib.rs:15 | insert returns the value `get` gave before, or `None` exactly when the key was new; afterwards `get(k)` is the new value; every other key keeps its entry; the key set gains `k`; the entry count grows by 1 for a new key and by 0 for an overwrite |
| `MapLike.ListsLength` | src/lib.rs:16 | a sequence that lists every entry of a map, each key once, has exactly as many elements as the map has entries |
| `MapLike.Enumerate` | src/lib.rs:31 | some sequence lists every entry of a map exactly once (the hash table's iteration, whose order is unspecified) |
| `HashMapAdapter.HashMap.constructor` | src/lib.rs:76 | a new hash map is empty, and its iteration order lists it |
| `HashMapAdapter.HashMap.Get` | src/lib.rs:24-28 | `get` only reads the table; it returns `Some(m[k])` exactly when `k` is present, and `None` otherwise |
| `HashMapAdapter.HashMap.Insert` | src/lib.rs:30 | a new iteration order is chosen that lists the new table; the new table and the returned value are those of `Upsert`: the displaced value is returned; `get(k)` is now `Some(v)`; all other keys are unchanged; the count grows by 1 only for a new key |
| `HashMapAdapter.HashMap.Iter` | src/lib.rs:31 | iteration lists every entry exactly once, has one element per entry, and promises no order; two tables with equal entries need not list them alike |
| `KeyOrder.Less` | src/lib.rs:34-35 | the `String` order the ordered adapter relies on: lexicographic by code point; a less key differs from the other, and a proper prefix is less than the longer string |
| `KeyOrder.LessIrreflexive` | src/lib.rs:34-35 | no `String` key is less than itself |
| `KeyOrder.LessTransitive` | src/lib.rs:34-35 | the key order is transitive |
| `KeyOrder.LessTotal` | src/lib.rs:34-35 | any two distinct keys are ordered one way or the other |
| `KeyOrder.LessAsymmetric` | src/lib.rs:34-35 | a key below another is never above it |
| `BTreeMapAdapter.BelowAbsent` | src/lib.rs:38-42 | a key that lies below the first key of an ascending map is absent from it, so the ordered search can stop there |
| `BTreeMapAdapter.Find` | src/lib.rs:38-42 | the ordered search over ascending entries returns exactly the map lookup of the key |
| `BTreeMapAdapter.InsertSorted` | src/lib.rs:44 | the ordered insertion denotes the old map with `k` set to `v` |
| `BTreeMapAdapter.AboveInsert` | src/lib.rs:44 | inserting a key above a bound keeps every key of the entries above that bound |
| `BTreeMapAdapter.InsertSortedAscending` | src/lib.rs:44 | the ordered insertion keeps the keys strictly ascending |
| `BTreeMapAdapter.AscendingLists` | src/lib.rs:45 | entries with strictly ascending keys list their map, each entry exactly once |
| `BTreeMapAdapter.BTreeMap.constructor` | src/lib.rs:34-46 | a new ordered map is empty and well formed |
| `BTreeMapAdapter.BTreeMap.Get` | src/lib.rs:38-42 | `get` only reads the map and returns the lookup of the key in the map the container holds |
| `BTreeMapAdapter.BTreeMap.Insert` | src/lib.rs:44 | keeps the keys ascending; the new map and the returned value are those of `Upsert`: the displaced value is returned, `get(k)` is now `Some(v)`, other keys are unchanged, and the count grows by 1 only for a new key |
| `BTreeMapAdapter.BTreeMap.Iter` | src/lib.rs:45 | iteration lists every entry exactly once, has one element per entry, and its keys strictly ascend |
| `MultiMap.GetOnly` | src/lib.rs:55-62 | `get_only` returns `None` when the key is absent and when the sequence there is empty or has two or more elements; it returns `Some(v[0])` when the sequence `v` has exactly one element |
| `MultiMap.GetOnlyExactly` | src/lib.rs:60-61 | on a container holding `m`, `get_only(k) == Some(x)` exactly when `k` is present and `m[k] == [x]` (both directions) |
| `BasicUsage.BasicUsage` | src/lib.rs:65-80 | on a hash map, after inserting "foobar" -> [3] and "baz" -> [1, 2, 3], `get_only("foobar") == Some(3)` and `get_only("baz") == None`; an absent key gives `None` too |
| `BasicUsage.BasicUsageOrdered` | src/lib.rs:65-80 | the same steps on the ordered adapter give the same results, and its iteration yields the keys "baz" then "foobar" |

## Left out

- Borrowed lookups (`K: Borrow<Q>` with `Q: ?Sized`, src/lib.rs:10-13): the query has the key's own type. The `Hash + Eq + Ord` bounds on the query are not modelled.
- The hasher parameter `S: HashState` and the feature gate (src/lib.rs:1, src/lib.rs:19-20): they change nothing that can be observed.
- Lifetimes, and the fact that iteration is lazy and can be restarted (src/lib.rs:7-8, src/lib.rs:16): an iteration is a finite sequence of pairs.
- HashMapAdapter.HashMap.Iter: this is a ghost function. It returns a ghost listing that every `Insert` replaces with an arbitrary listing of the new entries, because the table's iteration order is not specified. Only "every entry exactly once" is promised. How the order depends on the hash seed is not modelled.
- The internals of the standard `HashMap` and `BTreeMap` (hashing, tree balancing, cost) are not modelled. The ordered map is a sorted association sequence, and only its map behaviour and its key order are claimed.
- BTreeMapAdapter.BTreeMap: keys are `String` only, the key type the crate's test uses. A general key type `K: Ord` is not modelled.
- Results are returned as values rather than references (`Option<&V>`). Ownership of the displaced value is not modelled.
- `usize` values in the test are `nat`. The test does no arithmetic on them, so width does not matter.
- The test's generic helpers `prepare` and `foo` (src/lib.rs:67-74) are inlined into the scenario methods. Each adapter has its own class, and no trait abstracts over the two.
