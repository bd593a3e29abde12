/**
  The in-memory TTL cache of cache/memory.go: the operations of
  `memoryHelper` over the store of `CacheStore`, with the clock passed in as
  `now` (nanoseconds) and the cleanup timer recorded as data.

  The mutex, the stop channel and the goroutine that waits on the timer are
  not modelled: each operation is one atomic step, and `CleanupExpired` is an
  operation the environment may take at any time. The timer is recorded as
  the instant it was armed and the instant it fires.
 */
module CacheMemory {
  import opened Wrappers
  import opened CacheStore

  /** One hour in nanoseconds: the delay armed when the cache is empty. */
  const Hour: int := 3_600_000_000_000

  /** The cleanup timer: armed at `armedAt`, fires at `deadline`. */
  datatype Timer = Timer(armedAt: int, deadline: int)

  datatype Cache<V> = Cache(store: Store<V>, timer: Timer, closed: bool)

  /** What `GetAll` reports for one entry (cache/cache_interface.go:9-13). */
  datatype CacheItem<V> = CacheItem(key: string, value: V, expiresAt: int)

  /** An entry is still readable at `now` unless `now` is strictly after its
      expiration (`time.Now().After(item.expiration)`). */
  predicate Live<V>(e: Entry<V>, now: int) {
    now <= e.expiration
  }

  ghost predicate Invariant<V>(c: Cache<V>) {
    Valid(c.store)
  }

  /** The timer is never late: it fires no later than the heap root expires,
      or at once when the root had already expired when it was armed.
      `TimerNotLateMeans` restates this for every entry of the view. */
  predicate TimerNotLate<V>(c: Cache<V>) {
    |c.store.heap| > 0 ==> c.timer.deadline <= Max(c.timer.armedAt, c.store.heap[0].expiration)
  }

  function Max(a: int, b: int): int {
    if a < b then b else a
  }

  /** The delay `resetCleanupTimer` arms (memory.go:227-245): an hour for an
      empty heap, nothing when the root is already past, otherwise the time
      left until the root expires. `NextDelayMeaning` states it in terms of
      the cache's entries. */
  function NextDelay<V>(s: Store<V>, now: int): (d: int)
    ensures |s.heap| == 0 ==> d == Hour
    ensures |s.heap| > 0 ==> d >= 0 && now + d == Max(now, s.heap[0].expiration)
  {
    if |s.heap| == 0 then Hour
    else if s.heap[0].expiration < now then 0
    else s.heap[0].expiration - now
  }

  /** The armed delay is an hour for an empty cache; otherwise the timer
      fires at the earliest expiration, or at once if that is already past. */
  lemma NextDelayMeaning<V>(s: Store<V>, now: int)
    requires Valid(s)
    ensures View(s) == map[] ==> NextDelay(s, now) == Hour
    ensures View(s) != map[] ==> NextDelay(s, now) >= 0
    ensures forall k :: k in View(s) ==> now + NextDelay(s, now) <= Max(now, View(s)[k].expiration)
    ensures View(s) != map[] ==> exists k :: k in View(s) && now + NextDelay(s, now) == Max(now, View(s)[k].expiration)
  {
    if |s.heap| == 0 {
      EmptyHeapEmptyView(s);
    } else {
      RootBoundsView(s);
    }
  }

  /** The root's entry is in the view and no entry expires before it. */
  lemma RootBoundsView<V>(s: Store<V>)
    requires Valid(s) && |s.heap| > 0
    ensures s.heap[0].key in View(s) && View(s)[s.heap[0].key].expiration == s.heap[0].expiration
    ensures forall k :: k in View(s) ==> s.heap[0].expiration <= View(s)[k].expiration
  {
    forall k | k in View(s)
      ensures s.heap[0].expiration <= View(s)[k].expiration
    {
      RootIsMinimum(Exps(s.heap), s.data[k].index);
    }
  }

  /** `resetCleanupTimer`: stop the old timer and arm a new one. */
  function Rearm<V>(c: Cache<V>, now: int): (r: Cache<V>)
    requires Valid(c.store)
    ensures r.store == c.store && r.closed == c.closed
    ensures r.timer.armedAt == now
    ensures TimerNotLate(r)
  {
    c.(timer := Timer(now, now + NextDelay(c.store, now)))
  }

  /** `NewMemoryHelper` (memory.go:68-77): empty structures, timer armed. */
  function New<V>(now: int): (c: Cache<V>)
    ensures Invariant(c) && TimerNotLate(c) && View(c.store) == map[] && !c.closed
    ensures c.timer == Timer(now, now + Hour)
  {
    Cache(Store(map[], []), Timer(now, now + Hour), false)
  }

  /** `SetVal` (memory.go:85-105): the key ends up with the new value and
      expiration `now + ttl`, replacing any earlier entry; the timer is
      re-armed only when the new item became the heap root. */
  method SetVal<V>(c: Cache<V>, key: string, value: V, now: int, ttl: int) returns (r: Cache<V>)
    requires Invariant(c)
    ensures Invariant(r) && r.closed == c.closed
    ensures View(r.store) == View(c.store)[key := Entry(value, now + ttl)]
    ensures TimerNotLate(c) ==> TimerNotLate(r)
  {
    var e := Entry(value, now + ttl);
    var s := Put(c.store, key, e.value, e.expiration);
    r := AfterSet(c, s, key, e, now);
  }

  /** The timer rule at the end of `SetVal` (memory.go:101-103): re-arm only
      when the new item is the heap root. */
  function AfterSet<V>(c: Cache<V>, s: Store<V>, key: string, e: Entry<V>, now: int): (r: Cache<V>)
    requires Valid(c.store) && Valid(s) && View(s) == View(c.store)[key := e]
    ensures r.store == s && r.closed == c.closed
    ensures |s.heap| > 0 && s.heap[0].key == key ==> r.timer == Timer(now, now + NextDelay(s, now))
    ensures !(|s.heap| > 0 && s.heap[0].key == key) ==> r.timer == c.timer
    ensures TimerNotLate(c) ==> TimerNotLate(r)
  {
    if |s.heap| > 0 && s.heap[0].key == key then Rearm(c.(store := s), now)
    else
      TimerKeptBelowRoot(c, s, key, e);
      c.(store := s)
  }

  /** When an update leaves some other key at the root, the old timer is
      still not late. */
  lemma TimerKeptBelowRoot<V>(c: Cache<V>, s: Store<V>, key: string, e: Entry<V>)
    requires Valid(c.store) && Valid(s) && (|s.heap| > 0 ==> s.heap[0].key != key)
    requires View(s) == View(c.store)[key := e]
    ensures TimerNotLate(c) ==> TimerNotLate(c.(store := s))
  {
    if |s.heap| > 0 && TimerNotLate(c) {
      var root := s.heap[0].key;
      assert root in View(s);
      assert root in View(c.store) && View(s)[root] == View(c.store)[root];
      RootBoundsView(c.store);
    }
  }

  /** A timer that is not late fires no later than any entry expires, or at
      once for an entry that had already expired when it was armed. */
  lemma TimerNotLateMeans<V>(c: Cache<V>)
    requires Invariant(c) && TimerNotLate(c)
    ensures forall k :: k in View(c.store) ==> c.timer.deadline <= Max(c.timer.armedAt, View(c.store)[k].expiration)
  {
    if |c.store.heap| > 0 {
      RootBoundsView(c.store);
    } else {
      EmptyHeapEmptyView(c.store);
    }
  }

  /** `GetVal` (memory.go:120-132): the stored value while it is live, nil for
      a missing or expired key. Reading never changes the cache. */
  function GetVal<V>(c: Cache<V>, key: string, now: int): (r: Option<V>)
    ensures r.Some? <==> key in View(c.store) && Live(View(c.store)[key], now)
    ensures r.Some? ==> r.value == View(c.store)[key].value
  {
    if key !in c.store.data then None
    else if now > c.store.data[key].expiration then None
    else Some(c.store.data[key].value)
  }

  /** `Del` (memory.go:135-149): every listed key that is present leaves both
      structures; the timer is re-armed when anything is left. */
  method Del<V>(c: Cache<V>, keys: seq<string>, now: int) returns (r: Cache<V>)
    requires Invariant(c)
    ensures Invariant(r) && r.closed == c.closed
    ensures View(r.store) == View(c.store) - (set i | 0 <= i < |keys| :: keys[i])
    ensures |r.store.heap| > 0 ==> r.timer == Timer(now, now + NextDelay(r.store, now))
    ensures |r.store.heap| == 0 ==> r.timer == c.timer
    ensures TimerNotLate(c) ==> TimerNotLate(r)
  {
    var s := TakeAll(c.store, keys);
    r := AfterDel(c, s, now);
  }

  /** The timer rule at the end of `Del`: re-arm only when items are left. */
  function AfterDel<V>(c: Cache<V>, s: Store<V>, now: int): (r: Cache<V>)
    requires Valid(c.store) && Valid(s)
    requires forall k :: k in View(s) ==> k in View(c.store) && View(s)[k] == View(c.store)[k]
    ensures r.store == s && r.closed == c.closed
    ensures |s.heap| > 0 ==> r.timer == Timer(now, now + NextDelay(s, now))
    ensures |s.heap| == 0 ==> r.timer == c.timer
    ensures TimerNotLate(c) ==> TimerNotLate(r)
  {
    if |s.heap| > 0 then Rearm(c.(store := s), now) else c.(store := s)
  }

  /** The positions among the first `n` of `keys` whose key is present in
      `v` and live at `now`. */
  ghost function LivePositions<V>(v: map<string, Entry<V>>, keys: seq<string>, now: int, n: int): set<int> {
    set i | 0 <= i < n && i < |keys| && keys[i] in v && Live(v[keys[i]], now)
  }

  /** Extending the prefix by one position adds that position exactly when
      its key is live. */
  lemma LivePositionsStep<V>(v: map<string, Entry<V>>, keys: seq<string>, now: int, n: int)
    requires 0 <= n < |keys|
    ensures LivePositions(v, keys, now, n + 1) ==
      LivePositions(v, keys, now, n) + (if keys[n] in v && Live(v[keys[n]], now) then {n} else {})
  {
  }

  /** `Exists` (memory.go:152-166): how many of the arguments name a present,
      unexpired key. A key listed twice is counted twice. */
  method Exists<V>(c: Cache<V>, keys: seq<string>, now: int) returns (count: int)
    ensures count == |LivePositions(View(c.store), keys, now, |keys|)|
    ensures 0 <= count <= |keys|
  {
    ghost var v := View(c.store);
    count := 0;
    var i := 0;
    while i < |keys|
      invariant 0 <= i <= |keys|
      invariant count == |LivePositions(v, keys, now, i)|
    {
      LivePositionsStep(v, keys, now, i);
      if GetVal(c, keys[i], now).Some? {
        count := count + 1;
      }
      i := i + 1;
    }
    PositionsBound(LivePositions(v, keys, now, |keys|), |keys|);
  }

  /** A set of positions below `n` has at most `n` members. */
  lemma {:induction false} PositionsBound(p: set<int>, n: nat)
    requires forall i :: i in p ==> 0 <= i < n
    ensures |p| <= n
  {
    if n > 0 {
      PositionsBound(p - {n - 1}, n - 1);
    } else {
      assert forall i :: i !in p;
      assert p == {};
    }
  }

  /** `Expire` (memory.go:169-186): an absent key changes nothing; a present
      key keeps its value and gets expiration `now + ttl`, and the timer is
      re-armed. */
  method Expire<V>(c: Cache<V>, key: string, now: int, ttl: int) returns (r: Cache<V>)
    requires Invariant(c)
    ensures Invariant(r) && r.closed == c.closed
    ensures key !in View(c.store) ==> r == c
    ensures key in View(c.store) ==>
      View(r.store) == View(c.store)[key := Entry(View(c.store)[key].value, now + ttl)]
      && r.timer == Timer(now, now + NextDelay(r.store, now))
    ensures TimerNotLate(c) ==> TimerNotLate(r)
  {
    if key !in c.store.data {
      r := c;
      return;
    }
    var v := c.store.data[key].value;
    var e := Entry(v, now + ttl);
    assert View(c.store)[key].value == v;
    var s := Put(c.store, key, e.value, e.expiration);
    r := Rearm(c.(store := s), now);
  }

  /** `GetAll` (memory.go:189-206): every live entry exactly once, in the
      unspecified order of Go's map iteration. */
  method GetAll<V>(c: Cache<V>, now: int) returns (items: seq<CacheItem<V>>)
    ensures forall i, j :: 0 <= i < j < |items| ==> items[i].key != items[j].key
    ensures forall i :: 0 <= i < |items| ==>
      items[i].key in View(c.store)
      && View(c.store)[items[i].key] == Entry(items[i].value, items[i].expiresAt)
      && Live(View(c.store)[items[i].key], now)
    ensures forall k :: k in View(c.store) && Live(View(c.store)[k], now) ==>
      exists i :: 0 <= i < |items| && items[i].key == k
  {
    items := CollectLive(c.store.data, now);
    forall k | k in View(c.store) && Live(View(c.store)[k], now)
      ensures exists i :: 0 <= i < |items| && items[i].key == k
    {
      assert k in KeysOf(items);
    }
  }

  /** The loop of `GetAll` over the raw item map: one report per live key. */
  method CollectLive<V>(d: map<string, Item<V>>, now: int) returns (items: seq<CacheItem<V>>)
    ensures forall i, j :: 0 <= i < j < |items| ==> items[i].key != items[j].key
    ensures forall i :: 0 <= i < |items| ==> Reports(d, items[i], now)
    ensures forall k :: k in d && now <= d[k].expiration ==> k in KeysOf(items)
  {
    items := [];
    var todo := d.Keys;
    while todo != {}
      invariant Collected(d, now, items, todo)
      decreases |todo|
    {
      var k :| k in todo;
      items := CollectOne(d, now, items, todo, k);
      todo := todo - {k};
    }
  }

  /** The loop state of `GetAll`: the keys reported are distinct, each
      report is right, none is still to visit, and every live key already
      visited is reported. */
  ghost predicate Collected<V>(d: map<string, Item<V>>, now: int, items: seq<CacheItem<V>>, todo: set<string>) {
    && todo <= d.Keys
    && (forall i :: 0 <= i < |items| ==> items[i].key !in todo)
    && (forall i, j :: 0 <= i < j < |items| ==> items[i].key != items[j].key)
    && (forall i :: 0 <= i < |items| ==> Reports(d, items[i], now))
    && (forall k :: k in d && k !in todo && now <= d[k].expiration ==> k in KeysOf(items))
  }

  /** One round of the loop of `GetAll`: visit `k`, reporting it when live. */
  function CollectOne<V>(d: map<string, Item<V>>, now: int, items: seq<CacheItem<V>>, todo: set<string>, k: string): (r: seq<CacheItem<V>>)
    requires Collected(d, now, items, todo) && k in todo
    ensures Collected(d, now, r, todo - {k})
  {
    if now <= d[k].expiration then
      var x := CacheItem(k, d[k].value, d[k].expiration);
      KeysOfAppend(items, x);
      items + [x]
    else items
  }

  /** `x` reports the entry stored under its key, which is live at `now`. */
  ghost predicate Reports<V>(d: map<string, Item<V>>, x: CacheItem<V>, now: int) {
    x.key in d && d[x.key].value == x.value && d[x.key].expiration == x.expiresAt && now <= x.expiresAt
  }

  ghost function KeysOf<V>(items: seq<CacheItem<V>>): set<string> {
    set i | 0 <= i < |items| :: items[i].key
  }

  lemma KeysOfAppend<V>(items: seq<CacheItem<V>>, x: CacheItem<V>)
    ensures KeysOf(items + [x]) == KeysOf(items) + {x.key}
  {
    assert (items + [x])[|items|].key == x.key;
    forall k | k in KeysOf(items) ensures k in KeysOf(items + [x]) {
      var i :| 0 <= i < |items| && items[i].key == k;
      assert (items + [x])[i].key == k;
    }
  }

  /** `cleanupExpired` (memory.go:248-264): pops the root while it is due,
      that is while `now` is not before its expiration, then re-arms. Exactly
      the entries expiring after `now` remain. */
  method CleanupExpired<V>(c: Cache<V>, now: int) returns (r: Cache<V>)
    requires Invariant(c)
    ensures Invariant(r) && r.closed == c.closed
    ensures View(r.store) == map k | k in View(c.store) && now < View(c.store)[k].expiration :: View(c.store)[k]
    ensures r.timer == Timer(now, now + NextDelay(r.store, now))
    ensures TimerNotLate(r)
  {
    var s := PopDue(c.store, now);
    r := Rearm(c.(store := s), now);
  }

  /** `Close` (memory.go:267-277): both structures are emptied. Closing twice
      panics on the closed stop channel, so the cache must be open. */
  function Close<V>(c: Cache<V>): (r: Cache<V>)
    requires !c.closed
    ensures r.closed && Invariant(r) && View(r.store) == map[]
  {
    Cache(Store(map[], []), c.timer, true)
  }

  /** Setting a key replaces it: a read within the new lifetime returns the
      new value, and a read after it returns nothing. */
  lemma GetAfterSet<V>(c: Cache<V>, key: string, value: V, now: int, ttl: int, later: int)
    requires Invariant(c) && View(c.store)[key := Entry(value, now + ttl)] == View(c.store)
    ensures later <= now + ttl ==> GetVal(c, key, later) == Some(value)
    ensures later > now + ttl ==> GetVal(c, key, later) == None
  {
    assert key in View(c.store) && View(c.store)[key] == Entry(value, now + ttl);
  }

  /** After a cleanup at `now`, every remaining entry is still live at `now`,
      so reads and cleanup agree except on an entry expiring exactly at `now`,
      which reads still return and cleanup has already dropped. */
  lemma CleanupKeepsOnlyLive<V>(c: Cache<V>, r: Cache<V>, now: int, key: string)
    requires Invariant(c) && Invariant(r)
    requires View(r.store) == map k | k in View(c.store) && now < View(c.store)[k].expiration :: View(c.store)[k]
    ensures GetVal(r, key, now).Some? ==> GetVal(c, key, now) == GetVal(r, key, now)
    ensures GetVal(c, key, now).Some? && GetVal(r, key, now).None? ==> View(c.store)[key].expiration == now
  {
  }
}
