/**
  `OrderedMap` of `maputil/ordered_map.go`: a map that remembers insertion
  order, built from three parts kept in step: `data` (key to value),
  `order` (the doubly linked list of keys) and `index` (key to its list
  element). The list is a sequence of keys and a list element is named by
  its position, so `index[k]` is the position of `k` in `order`; after an
  element moves or leaves, the positions of the others are recomputed.
 */
module OrderedMaps {
  import opened Wrappers
  import SliceSort

  datatype OrderedMap<K, V> = OrderedMap(data: map<K, V>, order: seq<K>, index: map<K, nat>)

  ghost predicate NoDuplicates<K>(s: seq<K>) {
    forall i, j :: 0 <= i < j < |s| ==> s[i] != s[j]
  }

  /** The three parts agree: the same keys, each listed once, each indexed
      at its list position. */
  ghost predicate Valid<K(!new), V>(om: OrderedMap<K, V>) {
    NoDuplicates(om.order)
    && (forall k :: k in om.data <==> k in om.order)
    && om.index.Keys == om.data.Keys
    && (forall k :: k in om.index ==> om.index[k] < |om.order| && om.order[om.index[k]] == k)
  }

  /** Position of `k` in a list of keys. */
  function Position<K(==)>(order: seq<K>, k: K): (i: nat)
    requires k in order
    ensures i < |order| && order[i] == k
  {
    if order[0] == k then 0 else 1 + Position(order[1..], k)
  }

  /** The index of a list: each key to its position. */
  function Reindex<K(==,!new)>(order: seq<K>): (index: map<K, nat>)
    ensures forall k :: k in index <==> k in order
    ensures forall k :: k in index ==> index[k] < |order| && order[index[k]] == k
  {
    map k | k in order :: Position(order, k)
  }

  /** The list without position `i`. */
  function RemoveAt<K>(order: seq<K>, i: nat): (r: seq<K>)
    requires i < |order|
    ensures |r| == |order| - 1
    ensures forall j :: 0 <= j < i ==> r[j] == order[j]
    ensures forall j :: i <= j < |r| ==> r[j] == order[j + 1]
  {
    order[..i] + order[i + 1..]
  }

  /** Removing one listed key keeps the list duplicate-free and lists
      every other key. */
  lemma RemoveAtKeys<K>(order: seq<K>, i: nat)
    requires i < |order| && NoDuplicates(order)
    ensures NoDuplicates(RemoveAt(order, i))
    ensures forall k :: k in RemoveAt(order, i) <==> k in order && k != order[i]
  {
    var r := RemoveAt(order, i);
    forall k | k in order && k != order[i]
      ensures k in r
    {
      var j :| 0 <= j < |order| && order[j] == k;
      if j < i { assert r[j] == k; } else { assert r[j - 1] == k; }
    }
  }

  /** `NewOrderedMap` (ordered_map.go:22-28). */
  function New<K, V>(): (om: OrderedMap<K, V>)
    ensures om.data == map[] && om.order == [] && om.index == map[]
  {
    OrderedMap(map[], [], map[])
  }

  /** `Set` (ordered_map.go:31-46): a listed key gets the new value and
      moves to the back; a new key is appended at the back. */
  function Set<K(!new), V>(om: OrderedMap<K, V>, key: K, value: V): (r: OrderedMap<K, V>)
    requires Valid(om)
    ensures Valid(r)
    ensures r.data == om.data[key := value]
    ensures key !in om.data ==> r.order == om.order + [key]
    ensures key in om.data ==> r.order == RemoveAt(om.order, om.index[key]) + [key]
  {
    if key in om.index then MoveToBack(om, key, value) else PushBack(om, key, value)
  }

  /** The branch of `Set` for a listed key (ordered_map.go:35-40). */
  function MoveToBack<K(!new), V>(om: OrderedMap<K, V>, key: K, value: V): (r: OrderedMap<K, V>)
    requires Valid(om) && key in om.index
    ensures Valid(r)
    ensures r.data == om.data[key := value]
    ensures r.order == RemoveAt(om.order, om.index[key]) + [key]
  {
    var rest := RemoveAt(om.order, om.index[key]);
    RemoveAtKeys(om.order, om.index[key]);
    var order := rest + [key];
    Rebuilt(om.data[key := value], order);
    OrderedMap(om.data[key := value], order, Reindex(order))
  }

  /** The branch of `Set` for a new key (ordered_map.go:42-45). */
  function PushBack<K(!new), V>(om: OrderedMap<K, V>, key: K, value: V): (r: OrderedMap<K, V>)
    requires Valid(om) && key !in om.index
    ensures Valid(r)
    ensures r.data == om.data[key := value]
    ensures r.order == om.order + [key]
  {
    PushBackValid(om, key, value);
    OrderedMap(om.data[key := value], om.order + [key], om.index[key := |om.order|])
  }

  /** Appending a key the map does not hold, indexed at the old length, keeps
      the three parts in agreement. */
  lemma PushBackValid<K(!new), V>(om: OrderedMap<K, V>, key: K, value: V)
    requires Valid(om) && key !in om.index
    ensures Valid(OrderedMap(om.data[key := value], om.order + [key], om.index[key := |om.order|]))
  {
    var order := om.order + [key];
    AppendFresh(om.order, key);
    forall k | k in om.index
      ensures om.index[k] < |order| && order[om.index[k]] == k
    {
      assert order[om.index[k]] == om.order[om.index[k]];
    }
  }

  /** A key not yet listed can be appended without creating a duplicate. */
  lemma AppendFresh<K>(order: seq<K>, key: K)
    requires NoDuplicates(order) && key !in order
    ensures NoDuplicates(order + [key])
  {
    var t := order + [key];
    forall i, j | 0 <= i < j < |t|
      ensures t[i] != t[j]
    {
      if j < |order| {
        assert t[i] == order[i] && t[j] == order[j];
      } else {
        assert t[i] == order[i];
      }
    }
  }

  /** A duplicate-free list of exactly the keys of `data`, with its index
      rebuilt, is a valid ordered map. */
  lemma Rebuilt<K(!new), V>(data: map<K, V>, order: seq<K>)
    requires NoDuplicates(order) && forall k :: k in data <==> k in order
    ensures Valid(OrderedMap(data, order, Reindex(order)))
  {
  }

  /** `Get` (ordered_map.go:49-56). */
  function Get<K, V>(om: OrderedMap<K, V>, key: K): (r: Option<V>)
    ensures r.Some? <==> key in om.data
    ensures r.Some? ==> r.value == om.data[key]
  {
    if key in om.data then Some(om.data[key]) else None
  }

  /** `Delete` (ordered_map.go:59-68): drops the key from all three parts;
      an absent key changes nothing. */
  function Delete<K(!new), V>(om: OrderedMap<K, V>, key: K): (r: OrderedMap<K, V>)
    requires Valid(om)
    ensures Valid(r)
    ensures r.data == om.data - {key}
    ensures key !in om.data ==> r == om
    ensures key in om.data ==> r.order == RemoveAt(om.order, om.index[key])
  {
    if key in om.index then
      var order := RemoveAt(om.order, om.index[key]);
      RemoveAtKeys(om.order, om.index[key]);
      Rebuilt(om.data - {key}, order);
      OrderedMap(om.data - {key}, order, Reindex(order))
    else
      om
  }

  /** `Clear` (ordered_map.go:71-78). */
  function Clear<K, V>(om: OrderedMap<K, V>): (r: OrderedMap<K, V>)
    ensures r == New()
  {
    OrderedMap(map[], [], map[])
  }

  /** `Front` (ordered_map.go:81-106): the first key with its value. */
  function Front<K(!new), V>(om: OrderedMap<K, V>): (r: Option<(K, V)>)
    requires Valid(om)
    ensures r.None? <==> |om.data| == 0
    ensures r.Some? ==> r.value.0 == om.order[0] && r.value.0 in om.data && r.value.1 == om.data[r.value.0]
  {
    if |om.order| > 0 then Some((om.order[0], om.data[om.order[0]]))
    else
      assert om.data == map[] by { assert forall k :: k !in om.data; }
      None
  }

  /** `Back` (ordered_map.go:109-132): the last key with its value. */
  function Back<K(!new), V>(om: OrderedMap<K, V>): (r: Option<(K, V)>)
    requires Valid(om)
    ensures r.None? <==> |om.data| == 0
    ensures r.Some? ==> r.value.0 == om.order[|om.order| - 1] && r.value.0 in om.data && r.value.1 == om.data[r.value.0]
  {
    if |om.order| > 0 then Some((om.order[|om.order| - 1], om.data[om.order[|om.order| - 1]]))
    else
      assert om.data == map[] by { assert forall k :: k !in om.data; }
      None
  }

  /** `Keys` (ordered_map.go:150-161): walks the list front to back. */
  method Keys<K(!new), V>(om: OrderedMap<K, V>) returns (keys: seq<K>)
    requires Valid(om)
    ensures |keys| == |om.data|
    ensures NoDuplicates(keys) && forall k :: k in keys <==> k in om.data
    ensures keys == om.order
  {
    keys := [];
    for i := 0 to |om.order|
      invariant keys == om.order[..i]
    {
      keys := keys + [om.order[i]];
    }
    ListedOnce(om);
  }

  /** `Values` (ordered_map.go:164-176): the values in list order. */
  method Values<K(!new), V>(om: OrderedMap<K, V>) returns (values: seq<V>)
    requires Valid(om)
    ensures |values| == |om.order|
    ensures forall i :: 0 <= i < |values| ==> values[i] == om.data[om.order[i]]
  {
    values := [];
    for i := 0 to |om.order|
      invariant |values| == i
      invariant forall j :: 0 <= j < i ==> values[j] == om.data[om.order[j]]
    {
      values := values + [om.data[om.order[i]]];
    }
  }

  /** The list holds one entry per key. */
  lemma ListedOnce<K(!new), V>(om: OrderedMap<K, V>)
    requires Valid(om)
    ensures |om.order| == |om.data|
  {
    assert om.data.Keys == om.index.Keys;
    assert om.index.Keys == set i | 0 <= i < |om.order| :: om.order[i];
    DistinctCount(om.order);
  }

  /** A duplicate-free list is as long as its set of elements is large. */
  lemma {:induction false} DistinctCount<K>(s: seq<K>)
    requires NoDuplicates(s)
    ensures |set i | 0 <= i < |s| :: s[i]| == |s|
  {
    if |s| > 0 {
      var t := s[..|s| - 1];
      DistinctCount(t);
      var st := set i | 0 <= i < |t| :: t[i];
      assert (set i | 0 <= i < |s| :: s[i]) == st + {s[|s| - 1]};
      assert s[|s| - 1] !in st;
    }
  }

  /** `Len` (ordered_map.go:179-184). */
  function Len<K, V>(om: OrderedMap<K, V>): (n: nat)
    ensures n == |om.data.Keys|
  {
    |om.data|
  }

  /** `Len` counts the keys `Keys` lists. */
  lemma LenIsKeysLength<K(!new), V>(om: OrderedMap<K, V>)
    requires Valid(om)
    ensures Len(om) == |om.order|
  {
    ListedOnce(om);
  }

  /** `Contains` (ordered_map.go:187-194). */
  function Contains<K, V>(om: OrderedMap<K, V>, key: K): (b: bool)
    ensures b <==> Get(om, key).Some?
  {
    key in om.data
  }

  /** Setting a key makes `Get` report the value and leaves the other
      bindings alone. */
  lemma GetAfterSet<K(!new), V>(om: OrderedMap<K, V>, key: K, value: V, other: K)
    requires Valid(om)
    ensures Get(Set(om, key, value), key) == Some(value)
    ensures other != key ==> Get(Set(om, key, value), other) == Get(om, other)
  {
    var r := Set(om, key, value);
    assert r.data == om.data[key := value];
  }

  /** The key just set is the last one. */
  lemma SetMovesToBack<K(!new), V>(om: OrderedMap<K, V>, key: K, value: V)
    requires Valid(om)
    ensures Back(Set(om, key, value)) == Some((key, value))
  {
    var r := Set(om, key, value);
    var last := LastOfSet(om, key, value);
    assert r.data[key] == value;
  }

  /** The list after `Set` is non-empty and ends with the key just set. */
  lemma LastOfSet<K(!new), V>(om: OrderedMap<K, V>, key: K, value: V) returns (last: int)
    requires Valid(om)
    ensures last == |Set(om, key, value).order| - 1 >= 0
    ensures Set(om, key, value).order[last] == key
  {
    var r := Set(om, key, value);
    if key in om.data {
      assert r.order == RemoveAt(om.order, om.index[key]) + [key];
    } else {
      assert r.order == om.order + [key];
    }
    last := |r.order| - 1;
  }

  /** Deleting a key makes `Contains` false for it. */
  lemma GetAfterDelete<K(!new), V>(om: OrderedMap<K, V>, key: K)
    requires Valid(om)
    ensures !Contains(Delete(om, key), key)
  {
  }

  /** `SortByKey` (ordered_map.go:280-299): reorders the list by `less` and
      rebuilds the index; the bindings are untouched. `sort.Slice` is
      stood in for by the slice package's quicksort. */
  method SortByKey<K(!new), V>(om: OrderedMap<K, V>, less: (K, K) -> bool) returns (r: OrderedMap<K, V>)
    requires Valid(om) && SliceSort.StrictOrder(less)
    ensures Valid(r)
    ensures r.data == om.data
    ensures multiset(r.order) == multiset(om.order)
    ensures forall i, j :: 0 <= i < j < |r.order| ==> !less(r.order[j], r.order[i])
  {
    var keys := Keys(om);
    var sorted := SliceSort.SortBy(keys, less);
    PermutedKeys(keys, sorted);
    Rebuilt(om.data, sorted);
    r := OrderedMap(om.data, sorted, Reindex(sorted));
  }

  /** A permutation of a duplicate-free list is duplicate-free and lists the
      same keys. */
  lemma PermutedKeys<K>(s: seq<K>, t: seq<K>)
    requires NoDuplicates(s) && multiset(s) == multiset(t)
    ensures NoDuplicates(t) && forall k :: k in t <==> k in s
  {
    forall k ensures k in t <==> k in s {
      assert k in t <==> k in multiset(t);
      assert k in s <==> k in multiset(s);
    }
    forall i, j | 0 <= i < j < |t|
      ensures t[i] != t[j]
    {
      if t[i] == t[j] {
        var x := t[i];
        assert multiset(t)[x] >= 2 by {
          assert t == t[..i] + [x] + t[i + 1..j] + [x] + t[j + 1..];
        }
        OnceInDistinct(s, x);
        assert false;
      }
    }
  }

  /** A duplicate-free list holds each element at most once. */
  lemma {:induction false} OnceInDistinct<K>(s: seq<K>, x: K)
    requires NoDuplicates(s)
    ensures multiset(s)[x] <= 1
  {
    if |s| > 0 {
      assert s == [s[0]] + s[1..];
      OnceInDistinct(s[1..], x);
      if s[0] == x {
        assert x !in s[1..];
      }
    }
  }
}
