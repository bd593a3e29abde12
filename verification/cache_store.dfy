/**
  The storage half of the in-memory TTL cache (cache/memory.go): the key index
  `data` and the min-heap `expiryQueue`, ordered by expiration, together with
  the `container/heap` primitives the cache uses on it (Swap, up, down, Push,
  Pop, Remove).

  In Go both structures hold pointers to the same `cacheItem`, and each item
  records its own position in the heap. With values instead of pointers this
  sharing becomes the invariant `Linked`: the item stored under a key in `data`
  is equal, field for field, to the heap slot its `index` names. Every heap
  swap therefore rewrites both structures, exactly as the Go `Swap` rewrites
  the two items' `index` fields that the map also sees.
 */
module CacheStore {

  /** One cache entry: key, opaque value, absolute expiration, heap position. */
  datatype Item<V> = Item(key: string, value: V, expiration: int, index: int)

  /** What a caller can observe of an entry: its value and its expiration. */
  datatype Entry<V> = Entry(value: V, expiration: int)

  /** The pair of structures guarded by the cache's mutex. */
  datatype Store<V> = Store(data: map<string, Item<V>>, heap: seq<Item<V>>)

  /** The key index and the heap describe the same items, and every item's
      `index` is its position in the heap. */
  ghost predicate Linked<V>(s: Store<V>) {
    && (forall i :: 0 <= i < |s.heap| ==> s.heap[i].index == i)
    && (forall i :: 0 <= i < |s.heap| ==> s.heap[i].key in s.data && s.data[s.heap[i].key] == s.heap[i])
    && (forall k :: k in s.data ==> s.data[k].key == k && 0 <= s.data[k].index < |s.heap|)
    && (forall k :: k in s.data ==> s.heap[s.data[k].index] == s.data[k])
  }

  /** The expirations in heap order; the order predicates look only at these. */
  function Exps<V>(h: seq<Item<V>>): (e: seq<int>)
    ensures |e| == |h| && forall i :: 0 <= i < |h| ==> e[i] == h[i].expiration
  {
    seq(|h|, i requires 0 <= i < |h| => h[i].expiration)
  }

  /** Every node expires no later than its children (Less at memory.go:37-39).
      Slot `c` is a child of slot `p` when `c` is `2p+1` or `2p+2`. */
  ghost predicate Ordered(e: seq<int>) {
    forall p, c :: 0 <= p < c < |e| && (c == 2 * p + 1 || c == 2 * p + 2) ==> e[p] <= e[c]
  }

  ghost predicate HeapOrdered<V>(h: seq<Item<V>>) {
    Ordered(Exps(h))
  }

  /** Both invariants the cache keeps between operations. */
  ghost predicate Valid<V>(s: Store<V>) {
    Linked(s) && HeapOrdered(s.heap)
  }

  /** The observable content: key -> (value, expiration). */
  ghost function View<V>(s: Store<V>): map<string, Entry<V>> {
    map k | k in s.data :: Entry(s.data[k].value, s.data[k].expiration)
  }

  /** `e2` is `e` with positions `i` and `j` exchanged. */
  ghost predicate Swapped(e: seq<int>, e2: seq<int>, i: int, j: int) {
    && |e2| == |e| && 0 <= i < |e| && 0 <= j < |e|
    && e2[i] == e[j] && e2[j] == e[i]
    && forall k :: 0 <= k < |e| && k != i && k != j ==> e2[k] == e[k]
  }

  /** Heap order may fail only on the edge from `j` to its parent. */
  ghost predicate OrderedExcept(e: seq<int>, j: int) {
    forall p, c :: 0 <= p < c < |e| && (c == 2 * p + 1 || c == 2 * p + 2) && c != j ==> e[p] <= e[c]
  }

  /** Heap order may fail only on edges touching `i`. */
  ghost predicate OrderedAround(e: seq<int>, i: int) {
    forall p, c :: 0 <= p < c < |e| && (c == 2 * p + 1 || c == 2 * p + 2) && p != i && c != i ==> e[p] <= e[c]
  }

  /** The parent of `j` expires no later than the children of `j`, so `j`'s
      slot can be filled by either without breaking the order above it. */
  ghost predicate ParentBoundsChildren(e: seq<int>, j: int) {
    forall g, c :: 0 <= g < j < c < |e| && (j == 2 * g + 1 || j == 2 * g + 2) && (c == 2 * j + 1 || c == 2 * j + 2)
      ==> e[g] <= e[c]
  }

  /** No key occupies two heap slots. */
  lemma LinkedKeysDistinct<V>(s: Store<V>, i: int, j: int)
    requires Linked(s)
    requires 0 <= i < |s.heap| && 0 <= j < |s.heap|
    ensures s.heap[i].key == s.heap[j].key ==> i == j
  {
    assert s.data[s.heap[i].key] == s.heap[i];
  }

  /** The Go `Swap` (memory.go:42-46): exchanges two heap slots and records
      their new positions, which the map sees through the shared items. */
  function Swap<V>(s: Store<V>, i: int, j: int): (r: Store<V>)
    requires 0 <= i < |s.heap| && 0 <= j < |s.heap|
    ensures |r.heap| == |s.heap|
    ensures r.heap[i].key == s.heap[j].key && r.heap[j].key == s.heap[i].key
    ensures r.heap[i].index == i && r.heap[j].index == j
    ensures forall k :: 0 <= k < |s.heap| && k != i && k != j ==> r.heap[k] == s.heap[k]
  {
    var a := s.heap[j].(index := i);
    var b := s.heap[i].(index := j);
    Store(s.data[a.key := a][b.key := b], s.heap[i := a][j := b])
  }

  lemma SwapFacts<V>(s: Store<V>, i: int, j: int)
    requires Linked(s)
    requires 0 <= i < |s.heap| && 0 <= j < |s.heap|
    ensures Linked(Swap(s, i, j))
    ensures View(Swap(s, i, j)) == View(s)
    ensures Swapped(Exps(s.heap), Exps(Swap(s, i, j).heap), i, j)
  {
    SwapOthers(s, i, j);
    SwapLinked(s, i, j);
    SwapView(s, i, j);
  }

  /** The two swapped items are the only ones whose keys the swap touches. */
  lemma SwapOthers<V>(s: Store<V>, i: int, j: int)
    requires Linked(s)
    requires 0 <= i < |s.heap| && 0 <= j < |s.heap|
    ensures forall c :: 0 <= c < |s.heap| && c != i && c != j ==>
      s.heap[c].key != s.heap[i].key && s.heap[c].key != s.heap[j].key
  {
    forall c | 0 <= c < |s.heap| && c != i && c != j
      ensures s.heap[c].key != s.heap[i].key && s.heap[c].key != s.heap[j].key
    {
      LinkedKeysDistinct(s, c, j);
      LinkedKeysDistinct(s, c, i);
    }
  }

  lemma SwapLinked<V>(s: Store<V>, i: int, j: int)
    requires Linked(s)
    requires 0 <= i < |s.heap| && 0 <= j < |s.heap|
    requires forall c :: 0 <= c < |s.heap| && c != i && c != j ==>
      s.heap[c].key != s.heap[i].key && s.heap[c].key != s.heap[j].key
    ensures Linked(Swap(s, i, j))
  {
    var r := Swap(s, i, j);
    var a := s.heap[j].(index := i);
    var b := s.heap[i].(index := j);
    forall k | k in r.data
      ensures r.data[k].key == k && 0 <= r.data[k].index < |r.heap| && r.heap[r.data[k].index] == r.data[k]
    {
      if k != a.key && k != b.key {
        var p := s.data[k].index;
        assert s.heap[p] == s.data[k];
        assert p != i && p != j;
      }
    }
  }

  lemma SwapView<V>(s: Store<V>, i: int, j: int)
    requires Linked(s)
    requires 0 <= i < |s.heap| && 0 <= j < |s.heap|
    ensures View(Swap(s, i, j)) == View(s)
  {
    var r := Swap(s, i, j);
    assert r.data.Keys == s.data.Keys;
  }

  /** The root of an ordered heap expires no later than any other item. */
  lemma {:induction false} RootIsMinimum(e: seq<int>, c: int)
    requires Ordered(e) && 0 <= c < |e|
    ensures e[0] <= e[c]
    decreases c
  {
    if c > 0 {
      var p := (c - 1) / 2;
      assert c == 2 * p + 1 || c == 2 * p + 2;
      RootIsMinimum(e, p);
    }
  }

  /** One step of `up`: swapping `j` with its parent `i`, when `j` expires
      first, moves the possible violation one level up. */
  lemma UpStep(e: seq<int>, e': seq<int>, i: int, j: int)
    requires 0 <= i && (j == 2 * i + 1 || j == 2 * i + 2) && j < |e|
    requires e[j] < e[i] && Swapped(e, e', i, j)
    requires OrderedExcept(e, j) && ParentBoundsChildren(e, j)
    ensures OrderedExcept(e', i) && ParentBoundsChildren(e', i)
  {
    forall p, c | 0 <= p < c < |e'| && (c == 2 * p + 1 || c == 2 * p + 2) && c != i
      ensures e'[p] <= e'[c]
    {
      if p == i && c != j {
        assert e[i] <= e[c];
      } else if p == j {
        assert e[i] <= e[c];
      }
    }
    forall g, c | 0 <= g < i < c < |e'| && (i == 2 * g + 1 || i == 2 * g + 2) && (c == 2 * i + 1 || c == 2 * i + 2)
      ensures e'[g] <= e'[c]
    {
      assert e[g] <= e[i];
      if c != j {
        assert e[i] <= e[c];
      }
    }
  }

  /** One step of `down`: swapping `i` with its earlier-expiring child `j`,
      when that child expires before `i`, moves the violation to `j`. */
  lemma DownStep(e: seq<int>, e': seq<int>, i: int, j: int)
    requires 0 <= i && (j == 2 * i + 1 || j == 2 * i + 2) && j < |e|
    requires forall c :: i < c < |e| && (c == 2 * i + 1 || c == 2 * i + 2) ==> e[j] <= e[c]
    requires e[j] < e[i] && Swapped(e, e', i, j)
    requires OrderedAround(e, i) && ParentBoundsChildren(e, i)
    ensures OrderedAround(e', j) && ParentBoundsChildren(e', j) && e'[i] <= e'[j]
  {
    forall p, c | 0 <= p < c < |e'| && (c == 2 * p + 1 || c == 2 * p + 2) && p != j && c != j
      ensures e'[p] <= e'[c]
    {
      if c == i {
        assert e[p] <= e[j];
      } else if p == i {
        assert e[j] <= e[c];
      }
    }
    forall g, c | 0 <= g < j < c < |e'| && (j == 2 * g + 1 || j == 2 * g + 2) && (c == 2 * j + 1 || c == 2 * j + 2)
      ensures e'[g] <= e'[c]
    {
      assert g == i;
      assert e[j] <= e[c];
    }
  }

  /** The child `down` descends to: the right child only when it expires
      strictly before the left one. It bounds both children. */
  function SmallerChild(e: seq<int>, i: int): (j: int)
    requires 0 <= i && 2 * i + 1 < |e|
    ensures (j == 2 * i + 1 || j == 2 * i + 2) && j < |e| && (j - 1) / 2 == i
    ensures forall c :: i < c < |e| && (c == 2 * i + 1 || c == 2 * i + 2) ==> e[j] <= e[c]
  {
    if 2 * i + 2 < |e| && e[2 * i + 2] < e[2 * i + 1] then 2 * i + 2 else 2 * i + 1
  }

  /** `DownStep` lifted to the store: the swap keeps the links and the view. */
  lemma SwapDown<V>(s: Store<V>, i: int, j: int)
    requires Linked(s) && 0 <= i && (j == 2 * i + 1 || j == 2 * i + 2) && j < |s.heap|
    requires forall c :: i < c < |s.heap| && (c == 2 * i + 1 || c == 2 * i + 2) ==> Exps(s.heap)[j] <= Exps(s.heap)[c]
    requires s.heap[j].expiration < s.heap[i].expiration
    requires OrderedAround(Exps(s.heap), i) && ParentBoundsChildren(Exps(s.heap), i)
    ensures Linked(Swap(s, i, j)) && View(Swap(s, i, j)) == View(s)
    ensures OrderedAround(Exps(Swap(s, i, j).heap), j) && ParentBoundsChildren(Exps(Swap(s, i, j).heap), j)
    ensures Swap(s, i, j).heap[(j - 1) / 2].expiration <= Swap(s, i, j).heap[j].expiration
  {
    SwapFacts(s, i, j);
    DownStep(Exps(s.heap), Exps(Swap(s, i, j).heap), i, j);
    assert (j - 1) / 2 == i;
  }

  /** When the item at `i` expires no later than its children, the only edge
      that may still be out of order is the one above `i`. */
  lemma DownStop(e: seq<int>, i: int)
    requires 0 <= i < |e|
    requires forall c :: i < c < |e| && (c == 2 * i + 1 || c == 2 * i + 2) ==> e[i] <= e[c]
    requires OrderedAround(e, i)
    ensures OrderedExcept(e, i)
  {
  }

  /** When the one edge left open is in order too, the whole heap is. */
  lemma CloseGap(e: seq<int>, i: int)
    requires OrderedExcept(e, i) && 0 <= i < |e|
    requires i > 0 ==> e[(i - 1) / 2] <= e[i]
    ensures Ordered(e)
  {
    forall p, c | 0 <= p < c < |e| && (c == 2 * p + 1 || c == 2 * p + 2)
      ensures e[p] <= e[c]
    {
      if c == i {
        assert p == (i - 1) / 2;
      }
    }
  }

  /** Go's `up` (container/heap): moves the item at `j` towards the root while
      it expires strictly before its parent. The Go loop also stops when the
      parent index equals `j`, which happens exactly at `j == 0`. */
  method SiftUp<V>(s: Store<V>, j0: int) returns (r: Store<V>)
    requires Linked(s) && 0 <= j0 < |s.heap|
    requires OrderedExcept(Exps(s.heap), j0) && ParentBoundsChildren(Exps(s.heap), j0)
    ensures Valid(r) && View(r) == View(s) && |r.heap| == |s.heap|
  {
    r := s;
    var j := j0;
    while j > 0 && r.heap[j].expiration < r.heap[(j - 1) / 2].expiration
      invariant Linked(r) && View(r) == View(s) && |r.heap| == |s.heap|
      invariant 0 <= j < |r.heap|
      invariant OrderedExcept(Exps(r.heap), j) && ParentBoundsChildren(Exps(r.heap), j)
      decreases j
    {
      var i := (j - 1) / 2;
      SwapFacts(r, i, j);
      UpStep(Exps(r.heap), Exps(Swap(r, i, j).heap), i, j);
      r := Swap(r, i, j);
      j := i;
    }
    CloseGap(Exps(r.heap), j);
  }

  /** Go's `down` (container/heap) on the whole heap: moves the item at `i0`
      towards the leaves, always past the child that expires first, while that
      child expires strictly before it. Reports whether the item moved. */
  method SiftDown<V>(s: Store<V>, i0: int) returns (r: Store<V>, moved: bool)
    requires Linked(s) && 0 <= i0 < |s.heap|
    requires OrderedAround(Exps(s.heap), i0) && ParentBoundsChildren(Exps(s.heap), i0)
    ensures Linked(r) && View(r) == View(s) && |r.heap| == |s.heap|
    ensures moved ==> HeapOrdered(r.heap)
    ensures !moved ==> r == s && OrderedExcept(Exps(s.heap), i0)
  {
    r := s;
    var i := i0;
    while true
      invariant Linked(r) && View(r) == View(s) && |r.heap| == |s.heap|
      invariant i0 <= i < |r.heap|
      invariant OrderedAround(Exps(r.heap), i) && ParentBoundsChildren(Exps(r.heap), i)
      invariant i != i0 ==> i > 0 && r.heap[(i - 1) / 2].expiration <= r.heap[i].expiration
      invariant i == i0 ==> r == s
      decreases |r.heap| - i
    {
      var next, j, stop := SiftStep(r, i);
      if stop {
        break;
      }
      r, i := next, j;
    }
    moved := i > i0;
    if moved {
      CloseGap(Exps(r.heap), i);
    }
  }

  /** One round of `down`: stop where no child is earlier, or swap with
      the earlier child and move the gap there. */
  method SiftStep<V>(r: Store<V>, i: int) returns (next: Store<V>, j: int, stop: bool)
    requires Linked(r) && 0 <= i < |r.heap|
    requires OrderedAround(Exps(r.heap), i) && ParentBoundsChildren(Exps(r.heap), i)
    ensures stop ==> OrderedExcept(Exps(r.heap), i)
    ensures !stop ==> i < j < |r.heap| && GapBelow(r, next, j)
  {
    next, j := r, i;
    if 2 * i + 1 >= |r.heap| {
      DownStop(Exps(r.heap), i);
      return next, j, true;
    }
    var e := Exps(r.heap);
    j := SmallerChild(e, i);
    if !(e[j] < e[i]) {
      DownStop(e, i);
      return next, j, true;
    }
    next := SwapGap(r, i, j);
    stop := false;
  }

  /** Swapping the gap at `i` with its earlier child `j` moves the gap down
      to `j`. */
  function SwapGap<V>(r: Store<V>, i: int, j: int): (next: Store<V>)
    requires Linked(r) && 0 <= i && (j == 2 * i + 1 || j == 2 * i + 2) && j < |r.heap|
    requires forall c :: i < c < |r.heap| && (c == 2 * i + 1 || c == 2 * i + 2) ==> Exps(r.heap)[j] <= Exps(r.heap)[c]
    requires r.heap[j].expiration < r.heap[i].expiration
    requires OrderedAround(Exps(r.heap), i) && ParentBoundsChildren(Exps(r.heap), i)
    ensures GapBelow(r, next, j)
  {
    SwapDown(r, i, j);
    Swap(r, i, j)
  }

  /** `next` holds what `s` holds, in a heap of the same size that is in
      order but for the gap at `j`, whose parent is no later than it. */
  ghost predicate GapBelow<V>(s: Store<V>, next: Store<V>, j: int) {
    && 0 < j < |next.heap| == |s.heap|
    && Linked(next) && View(next) == View(s)
    && OrderedAround(Exps(next.heap), j) && ParentBoundsChildren(Exps(next.heap), j)
    && next.heap[(j - 1) / 2].expiration <= next.heap[j].expiration
  }

  /** Go's `heap.Push` (memory.go:49-54 plus `up`): appends `item` with its
      position as index, records it in the map, and restores heap order. */
  method Push<V>(s: Store<V>, item: Item<V>) returns (r: Store<V>)
    requires Valid(s) && item.key !in s.data
    ensures Valid(r)
    ensures View(r) == View(s)[item.key := Entry(item.value, item.expiration)]
    ensures |r.heap| == |s.heap| + 1
  {
    var t := Append(s, item);
    AppendLinked(s, item);
    AppendView(s, item);
    AppendOrder(Exps(s.heap), Exps(t.heap));
    r := SiftUp(t, |s.heap|);
  }

  /** Go's `expiryHeap.Push` (memory.go:49-54) together with the map write:
      the item is appended with its position as index. */
  function Append<V>(s: Store<V>, item: Item<V>): (r: Store<V>)
    ensures |r.heap| == |s.heap| + 1 && r.heap[..|s.heap|] == s.heap
    ensures r.heap[|s.heap|] == item.(index := |s.heap|)
    ensures r.data.Keys == s.data.Keys + {item.key} && r.data[item.key] == r.heap[|s.heap|]
  {
    var it := item.(index := |s.heap|);
    Store(s.data[it.key := it], s.heap + [it])
  }

  lemma AppendLinked<V>(s: Store<V>, item: Item<V>)
    requires Linked(s) && item.key !in s.data
    ensures Linked(Append(s, item))
  {
    forall i | 0 <= i < |s.heap|
      ensures s.heap[i].key != item.key
    {
      assert s.data[s.heap[i].key] == s.heap[i];
    }
  }

  lemma AppendView<V>(s: Store<V>, item: Item<V>)
    ensures View(Append(s, item)) == View(s)[item.key := Entry(item.value, item.expiration)]
  {
  }

  /** A new last slot can break heap order only on the edge to its parent,
      and it has no children. */
  lemma AppendOrder(e: seq<int>, e': seq<int>)
    requires Ordered(e) && |e'| == |e| + 1
    requires forall k :: 0 <= k < |e| ==> e'[k] == e[k]
    ensures OrderedExcept(e', |e|) && ParentBoundsChildren(e', |e|)
  {
  }

  /** Go's `heap.Remove(h, i)` followed by dropping the removed item's key
      from the map: the item at `i` is swapped with the last one, the heap
      shrinks, and the moved item is sifted down, or up when it did not move
      down. Go sifts before shrinking with the bound `n`, never touching slot
      `n`, so the resulting heap is the same. */
  method Remove<V>(s: Store<V>, i: int) returns (r: Store<V>, removed: Item<V>)
    requires Valid(s) && 0 <= i < |s.heap|
    ensures Valid(r)
    ensures removed.key == s.heap[i].key && removed.key in s.data
    ensures removed.value == s.heap[i].value && removed.expiration == s.heap[i].expiration
    ensures View(r) == View(s) - {removed.key}
    ensures |r.heap| == |s.heap| - 1
  {
    var n := |s.heap| - 1;
    removed := s.heap[i];
    var t := DropLast(Swap(s, i, n));
    Detach(s, i);
    if i == n {
      r := t;
    } else {
      r := Fix(t, i);
    }
  }

  /** Go's `heap.Fix` step inside `Remove`: sift down, and sift up when the
      item did not move down. */
  method Fix<V>(t: Store<V>, i: int) returns (r: Store<V>)
    requires Linked(t) && 0 <= i < |t.heap|
    requires OrderedAround(Exps(t.heap), i) && ParentBoundsChildren(Exps(t.heap), i)
    ensures Valid(r) && View(r) == View(t) && |r.heap| == |t.heap|
  {
    var moved;
    r, moved := SiftDown(t, i);
    if !moved {
      r := SiftUp(t, i);
    }
  }

  /** Moving the last item into slot `i` and dropping the last slot keeps the
      links, drops exactly the key that was at `i`, and breaks heap order at
      most around `i`. */
  lemma Detach<V>(s: Store<V>, i: int)
    requires Valid(s) && 0 <= i < |s.heap|
    ensures var n := |s.heap| - 1;
      var t := DropLast(Swap(s, i, n));
      && Linked(t)
      && View(t) == View(s) - {s.heap[i].key}
      && s.heap[i].key in s.data
      && (i == n ==> HeapOrdered(t.heap))
      && (i < n ==> OrderedAround(Exps(t.heap), i) && ParentBoundsChildren(Exps(t.heap), i))
  {
    DetachLinks(s, i);
    DetachOrder(s, i);
  }

  lemma DetachLinks<V>(s: Store<V>, i: int)
    requires Linked(s) && 0 <= i < |s.heap|
    ensures var t := DropLast(Swap(s, i, |s.heap| - 1));
      Linked(t) && View(t) == View(s) - {s.heap[i].key} && s.heap[i].key in s.data
  {
    var n := |s.heap| - 1;
    SwapFacts(s, i, n);
    var w := Swap(s, i, n);
    assert w.heap[n] == s.heap[i].(index := n);
    DropLastLinked(w);
    DropLastView(w);
  }

  lemma DetachOrder<V>(s: Store<V>, i: int)
    requires HeapOrdered(s.heap) && 0 <= i < |s.heap|
    ensures var n := |s.heap| - 1;
      var t := DropLast(Swap(s, i, n));
      && (i == n ==> HeapOrdered(t.heap))
      && (i < n ==> OrderedAround(Exps(t.heap), i) && ParentBoundsChildren(Exps(t.heap), i))
  {
    var n := |s.heap| - 1;
    RemoveOrder(Exps(s.heap), Exps(DropLast(Swap(s, i, n)).heap), i);
  }

  /** The heap without its last item, and the map without that item's key. */
  function DropLast<V>(s: Store<V>): (r: Store<V>)
    requires |s.heap| > 0
    ensures |r.heap| == |s.heap| - 1
  {
    Store(s.data - {s.heap[|s.heap| - 1].key}, s.heap[..|s.heap| - 1])
  }

  lemma DropLastLinked<V>(s: Store<V>)
    requires Linked(s) && |s.heap| > 0
    ensures Linked(DropLast(s))
  {
    var n := |s.heap| - 1;
    var t := DropLast(s);
    forall c | 0 <= c < n
      ensures s.heap[c].key != s.heap[n].key
    {
      LinkedKeysDistinct(s, c, n);
    }
    forall k | k in t.data
      ensures t.data[k].index < n
    {
      assert s.heap[s.data[k].index] == s.data[k];
    }
  }

  lemma DropLastView<V>(s: Store<V>)
    requires |s.heap| > 0
    ensures View(DropLast(s)) == View(s) - {s.heap[|s.heap| - 1].key}
  {
  }

  /** After the last item overwrites slot `i` and the heap shrinks, order can
      only be broken on edges touching `i`; when `i` was the last slot the
      shorter heap is ordered outright. */
  lemma RemoveOrder(e: seq<int>, e': seq<int>, i: int)
    requires Ordered(e) && 0 <= i < |e| && |e'| == |e| - 1
    requires i < |e'| ==> e'[i] == e[|e| - 1]
    requires forall k :: 0 <= k < |e'| && k != i ==> e'[k] == e[k]
    ensures i == |e| - 1 ==> Ordered(e')
    ensures i < |e| - 1 ==> OrderedAround(e', i) && ParentBoundsChildren(e', i)
  {
    var n := |e| - 1;
    if i < n {
      forall g, c | 0 <= g < i < c < n && (i == 2 * g + 1 || i == 2 * g + 2) && (c == 2 * i + 1 || c == 2 * i + 2)
        ensures e'[g] <= e'[c]
      {
        assert e[g] <= e[i];
        assert e[i] <= e[c];
      }
    }
  }



  /** Go's `heap.Pop` followed by dropping the key from the map: removes the
      root, which expires no later than any other item. */
  method Pop<V>(s: Store<V>) returns (r: Store<V>, removed: Item<V>)
    requires Valid(s) && |s.heap| > 0
    ensures Valid(r)
    ensures removed.key in View(s) && View(r) == View(s) - {removed.key}
    ensures Entry(removed.value, removed.expiration) == View(s)[removed.key]
    ensures forall k :: k in View(s) ==> removed.expiration <= View(s)[k].expiration
    ensures removed.key == s.heap[0].key && removed.expiration == s.heap[0].expiration
    ensures |r.heap| == |s.heap| - 1
  {
    forall k | k in View(s)
      ensures s.heap[0].expiration <= View(s)[k].expiration
    {
      RootIsMinimum(Exps(s.heap), s.data[k].index);
    }
    r, removed := Remove(s, 0);
  }

  /** Every view entry is present in the heap, so an empty heap means an
      empty cache. */
  lemma EmptyHeapEmptyView<V>(s: Store<V>)
    requires Linked(s) && |s.heap| == 0
    ensures View(s) == map[]
  {
    assert forall k :: k !in s.data;
  }

  /** Removes `key` from both structures when it is present (the pattern of
      memory.go:95-97 and 139-142); an absent key changes nothing. */
  method Take<V>(s: Store<V>, key: string) returns (r: Store<V>)
    requires Valid(s)
    ensures Valid(r) && View(r) == View(s) - {key}
    ensures key !in View(s) ==> r == s
  {
    r := s;
    if key in s.data {
      var gone;
      r, gone := Remove(s, s.data[key].index);
    } else {
      assert View(s) - {key} == View(s);
    }
  }

  /** Replaces whatever `key` held by a fresh item (memory.go:95-99): after
      the call the key has exactly one entry, with the new value and
      expiration. */
  method Put<V>(s: Store<V>, key: string, value: V, expiration: int) returns (r: Store<V>)
    requires Valid(s)
    ensures Valid(r) && View(r) == View(s)[key := Entry(value, expiration)]
  {
    var t := Take(s, key);
    RemoveThenSet(View(s), key, Entry(value, expiration));
    r := Push(t, Item(key, value, expiration, 0));
  }

  /** Dropping a key and then setting it is the same as setting it. */
  lemma RemoveThenSet<V>(m: map<string, Entry<V>>, k: string, e: Entry<V>)
    ensures (m - {k})[k := e] == m[k := e]
  {
  }

  /** The keys among the first `n` of `keys`. */
  ghost function KeySet(keys: seq<string>, n: int): set<string> {
    set i | 0 <= i < n && i < |keys| :: keys[i]
  }

  lemma KeySetStep<V>(v: map<string, Entry<V>>, keys: seq<string>, n: int)
    requires 0 <= n < |keys|
    ensures v - KeySet(keys, n + 1) == (v - KeySet(keys, n)) - {keys[n]}
  {
    assert KeySet(keys, n + 1) == KeySet(keys, n) + {keys[n]};
  }

  /** The loop of `Del` (memory.go:138-143): takes each listed key in turn. */
  method TakeAll<V>(s: Store<V>, keys: seq<string>) returns (r: Store<V>)
    requires Valid(s)
    ensures Valid(r) && View(r) == View(s) - (set i | 0 <= i < |keys| :: keys[i])
  {
    r := s;
    var i := 0;
    while i < |keys|
      invariant 0 <= i <= |keys| && Valid(r)
      invariant View(r) == View(s) - KeySet(keys, i)
    {
      KeySetStep(View(s), keys, i);
      r := Take(r, keys[i]);
      i := i + 1;
    }
    assert KeySet(keys, |keys|) == set i | 0 <= i < |keys| :: keys[i];
  }

  /** The loop of `cleanupExpired` (memory.go:252-261): pops the root while
      `now` is not before its expiration. Exactly the entries expiring after
      `now` remain. */
  method PopDue<V>(s: Store<V>, now: int) returns (r: Store<V>)
    requires Valid(s)
    ensures Valid(r)
    ensures View(r) == map k | k in View(s) && now < View(s)[k].expiration :: View(s)[k]
  {
    r := s;
    while |r.heap| > 0 && !(now < r.heap[0].expiration)
      invariant Valid(r)
      invariant KeepsUndue(View(r), View(s), now)
      decreases |r.heap|
    {
      var r0 := r;
      var due;
      r, due := Pop(r);
      DropDue(View(s), View(r0), View(r), due.key, now);
    }
    NothingDue(r, now);
  }

  /** `v` is a sub-map of `v0` that still holds every entry of `v0` expiring
      after `now`. */
  ghost predicate KeepsUndue<V>(v: map<string, Entry<V>>, v0: map<string, Entry<V>>, now: int) {
    (forall k :: k in v ==> k in v0 && v[k] == v0[k])
    && (forall k :: k in v0 && now < v0[k].expiration ==> k in v)
  }

  /** Dropping one due entry keeps `KeepsUndue`. */
  lemma DropDue<V>(v0: map<string, Entry<V>>, v: map<string, Entry<V>>, v': map<string, Entry<V>>, key: string, now: int)
    requires KeepsUndue(v, v0, now)
    requires key in v && v[key].expiration <= now && v' == v - {key}
    ensures KeepsUndue(v', v0, now)
  {
  }

  /** When the root is not due, no entry is. */
  lemma NothingDue<V>(s: Store<V>, now: int)
    requires Valid(s) && (|s.heap| > 0 ==> now < s.heap[0].expiration)
    ensures forall k :: k in View(s) ==> now < View(s)[k].expiration
  {
    if |s.heap| > 0 {
      forall k | k in View(s)
        ensures now < View(s)[k].expiration
      {
        RootIsMinimum(Exps(s.heap), s.data[k].index);
      }
    } else {
      EmptyHeapEmptyView(s);
    }
  }

  /** Every key in the view has exactly one heap slot, so the heap is as
      long as the view is large. */
  lemma HeapSizeIsViewSize<V>(s: Store<V>)
    requires Linked(s)
    ensures |s.heap| == |View(s)|
  {
    assert (set i | 0 <= i < |s.heap| :: s.heap[i].key) == View(s).Keys;
    KeysOfDistinct(s, |s.heap|);
  }

  /** The keys of the first `n` heap slots are `n` distinct strings. */
  lemma {:induction false} KeysOfDistinct<V>(s: Store<V>, n: nat)
    requires Linked(s) && n <= |s.heap|
    ensures |set i | 0 <= i < n :: s.heap[i].key| == n
  {
    if n > 0 {
      KeysOfDistinct(s, n - 1);
      var prev := set i | 0 <= i < n - 1 :: s.heap[i].key;
      assert (set i | 0 <= i < n :: s.heap[i].key) == prev + {s.heap[n - 1].key};
      forall i | 0 <= i < n - 1
        ensures s.heap[i].key != s.heap[n - 1].key
      {
        LinkedKeysDistinct(s, i, n - 1);
      }
    }
  }
}
