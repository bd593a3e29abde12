/**
  The generic map helpers of `maputil/map.go`. Go's `map[K]V` is a Dafny
  `map<K, V>`. Go visits a map in an unspecified order; the helpers whose
  result depends on that order (`Keys`, `Values`, `Entries`) are methods
  that pick the next key with `:|`, so their contracts hold for every
  visiting order.
 */
module MapUtil {

  /** `ks` lists the keys of `m`, each exactly once. */
  ghost predicate Enumerates<K(!new), V>(ks: seq<K>, m: map<K, V>) {
    |ks| == |m|
    && (forall i, j :: 0 <= i < j < |ks| ==> ks[i] != ks[j])
    && (forall k :: k in m <==> k in ks)
  }

  /** `Keys` (map.go:13-23): picks the keys of `m` one by one, as a
      `range` loop does, filling one slot per key. */
  method Keys<K(==,!new), V>(m: map<K, V>) returns (keys: seq<K>)
    ensures Enumerates(keys, m)
  {
    keys := [];
    var todo := m.Keys;
    while todo != {}
      invariant todo <= m.Keys
      invariant |keys| + |todo| == |m|
      invariant forall i, j :: 0 <= i < j < |keys| ==> keys[i] != keys[j]
      invariant forall k :: k in m <==> k in keys || k in todo
      invariant forall k :: k in keys ==> k !in todo
      decreases |todo|
    {
      var k :| k in todo;
      keys := keys + [k];
      todo := todo - {k};
    }
  }

  /** `Values` (map.go:26-36): the values in the visiting order of the keys. */
  method Values<K(==,!new), V>(m: map<K, V>) returns (values: seq<V>, ghost order: seq<K>)
    ensures Enumerates(order, m) && |values| == |order|
    ensures forall i :: 0 <= i < |values| ==> values[i] == m[order[i]]
    ensures |values| == |m|
  {
    var keys := Keys(m);
    values := [];
    for i := 0 to |keys|
      invariant |values| == i
      invariant forall j :: 0 <= j < i ==> values[j] == m[keys[j]]
    {
      values := values + [m[keys[i]]];
    }
    order := keys;
  }

  // ---------------------------------------------------------------- Merge

  /** `Merge` (map.go:61-76): later maps overwrite earlier ones. */
  function Merge<K(!new), V>(maps: seq<map<K, V>>): (r: map<K, V>)
    ensures forall k :: k in r <==> exists i :: 0 <= i < |maps| && k in maps[i]
  {
    if |maps| == 0 then map[]
    else
      var front := maps[..|maps| - 1];
      assert forall i :: 0 <= i < |front| ==> front[i] == maps[i];
      Merge(front) + maps[|maps| - 1]
  }

  /** A key takes its value from the last map that has it. */
  lemma {:induction false} MergeLastWins<K(!new), V>(maps: seq<map<K, V>>, k: K, i: int)
    requires 0 <= i < |maps| && k in maps[i]
    requires forall j :: i < j < |maps| ==> k !in maps[j]
    ensures k in Merge(maps) && Merge(maps)[k] == maps[i][k]
  {
    if i < |maps| - 1 {
      var front := maps[..|maps| - 1];
      assert front[i] == maps[i];
      MergeLastWins(front, k, i);
    }
  }

  // ------------------------------------------------------ Filter, OmitBy

  /** `Filter` (map.go:86-95): the entries the predicate accepts. */
  function Filter<K(!new), V>(m: map<K, V>, keep: (K, V) -> bool): (r: map<K, V>)
    ensures forall k :: k in r <==> k in m && keep(k, m[k])
    ensures forall k :: k in r ==> r[k] == m[k]
  {
    map k | k in m && keep(k, m[k]) :: m[k]
  }

  /** `OmitBy` (map.go:122-131): the entries the predicate rejects. */
  function OmitBy<K(!new), V>(m: map<K, V>, keep: (K, V) -> bool): (r: map<K, V>)
    ensures forall k :: k in r <==> k in m && !keep(k, m[k])
    ensures forall k :: k in r ==> r[k] == m[k]
  {
    map k | k in m && !keep(k, m[k]) :: m[k]
  }

  /** `Filter` and `OmitBy` with one predicate split `m` in two. */
  lemma FilterOmitSplit<K(!new), V>(m: map<K, V>, keep: (K, V) -> bool)
    ensures Filter(m, keep).Keys !! OmitBy(m, keep).Keys
    ensures Filter(m, keep) + OmitBy(m, keep) == m
  {
    var f, o := Filter(m, keep), OmitBy(m, keep);
    assert (f + o).Keys == m.Keys;
  }

  /** `FilterByKeys` (map.go:98-107): the entries whose key is listed. */
  function FilterByKeys<K(!new), V>(m: map<K, V>, keys: seq<K>): (r: map<K, V>)
    ensures forall k :: k in r <==> k in m && k in keys
    ensures forall k :: k in r ==> r[k] == m[k]
  {
    map k | k in m && k in keys :: m[k]
  }

  /** `OmitByKeys` (map.go:134-143): the entries whose key is not listed. */
  function OmitByKeys<K(!new), V>(m: map<K, V>, keys: seq<K>): (r: map<K, V>)
    ensures forall k :: k in r <==> k in m && k !in keys
    ensures forall k :: k in r ==> r[k] == m[k]
  {
    map k | k in m && k !in keys :: m[k]
  }

  /** `FilterByKeys` and `OmitByKeys` with one key list split `m` in two. */
  lemma FilterByKeysSplit<K(!new), V>(m: map<K, V>, keys: seq<K>)
    ensures FilterByKeys(m, keys).Keys !! OmitByKeys(m, keys).Keys
    ensures FilterByKeys(m, keys) + OmitByKeys(m, keys) == m
  {
    var f, o := FilterByKeys(m, keys), OmitByKeys(m, keys);
    assert (f + o).Keys == m.Keys;
  }

  // ------------------------------------------------------------ Intersect

  /** The `reducer` of `Intersect` (map.go:168-176): keys of `m1` that `m2`
      maps to an equal value. */
  function Meet<K(!new), V(==)>(m1: map<K, V>, m2: map<K, V>): (r: map<K, V>)
    ensures forall k :: k in r <==> k in m1 && k in m2 && m2[k] == m1[k]
    ensures forall k :: k in r ==> r[k] == m1[k]
  {
    map k | k in m1 && k in m2 && m2[k] == m1[k] :: m1[k]
  }

  /** Folds `Meet` over the maps after the first. */
  function MeetAll<K(!new), V(==)>(acc: map<K, V>, maps: seq<map<K, V>>): map<K, V> {
    if |maps| == 0 then acc else MeetAll(Meet(acc, maps[0]), maps[1..])
  }

  /** `Intersect` (map.go:158-188): no maps give an empty map, one map is
      returned as is, and otherwise the reducer is folded left to right. */
  function Intersect<K(!new), V(==)>(maps: seq<map<K, V>>): (r: map<K, V>)
    ensures |maps| == 0 ==> r == map[]
    ensures |maps| > 0 ==> forall k :: k in r <==>
      k in maps[0] && forall i :: 0 <= i < |maps| ==> k in maps[i] && maps[i][k] == maps[0][k]
    ensures |maps| > 0 ==> forall k :: k in r ==> r[k] == maps[0][k]
  {
    if |maps| == 0 then map[]
    else if |maps| == 1 then maps[0]
    else
      var r := MeetAll(Meet(maps[0], maps[1]), maps[2..]);
      MeetAllAgrees(maps[0], Meet(maps[0], maps[1]), maps[2..]);
      r
  }

  /** What the fold keeps: the keys of the accumulator on which every
      remaining map agrees with `base`. */
  lemma {:induction false} MeetAllAgrees<K(!new), V>(base: map<K, V>, acc: map<K, V>, maps: seq<map<K, V>>)
    requires forall k :: k in acc ==> k in base && acc[k] == base[k]
    ensures forall k :: k in MeetAll(acc, maps) <==>
      k in acc && forall i :: 0 <= i < |maps| ==> k in maps[i] && maps[i][k] == base[k]
    ensures forall k :: k in MeetAll(acc, maps) ==> MeetAll(acc, maps)[k] == base[k]
  {
    if |maps| > 0 {
      MeetAllAgrees(base, Meet(acc, maps[0]), maps[1..]);
      assert forall i :: 1 <= i < |maps| ==> maps[i] == maps[1..][i - 1];
    }
  }

  // ---------------------------------------------------- Minus, IsDisjoint

  /** `Minus` (map.go:191-200): the entries of `a` whose key `b` lacks. */
  function Minus<K(!new), V>(a: map<K, V>, b: map<K, V>): (r: map<K, V>)
    ensures r.Keys == a.Keys - b.Keys
    ensures forall k :: k in r ==> r[k] == a[k]
  {
    map k | k in a && k !in b :: a[k]
  }

  /** `IsDisjoint` (map.go:203-210): scans the keys of `a`, stopping at the
      first one `b` also has. */
  method IsDisjoint<K(==,!new), V>(a: map<K, V>, b: map<K, V>) returns (disjoint: bool)
    ensures disjoint <==> a.Keys !! b.Keys
  {
    var todo := a.Keys;
    while todo != {}
      invariant todo <= a.Keys
      invariant forall k :: k in a && k !in todo ==> k !in b
      decreases |todo|
    {
      var k :| k in todo;
      if k in b {
        return false;
      }
      todo := todo - {k};
    }
    return true;
  }

  /** A map minus a disjoint one is itself. */
  lemma MinusDisjoint<K(!new), V>(a: map<K, V>, b: map<K, V>)
    requires a.Keys !! b.Keys
    ensures Minus(a, b) == a
  {
  }

  // ---------------------------------------------- Entries, FromEntries

  /** Go's `Entry[K, V]`. */
  datatype Entry<K, V> = Entry(key: K, value: V)

  /** `Entries` (map.go:219-230): one entry per key, in visiting order. */
  method Entries<K(==,!new), V>(m: map<K, V>) returns (entries: seq<Entry<K, V>>)
    ensures |entries| == |m|
    ensures forall i, j :: 0 <= i < j < |entries| ==> entries[i].key != entries[j].key
    ensures forall i :: 0 <= i < |entries| ==> entries[i].key in m && entries[i].value == m[entries[i].key]
    ensures forall k :: k in m ==> exists i :: 0 <= i < |entries| && entries[i].key == k
  {
    var keys := Keys(m);
    entries := [];
    for i := 0 to |keys|
      invariant |entries| == i
      invariant forall j :: 0 <= j < i ==> entries[j] == Entry(keys[j], m[keys[j]])
    {
      entries := entries + [Entry(keys[i], m[keys[i]])];
    }
    forall k | k in m
      ensures exists i :: 0 <= i < |entries| && entries[i].key == k
    {
      var i :| 0 <= i < |keys| && keys[i] == k;
      assert entries[i].key == k;
    }
  }

  /** `FromEntries` (map.go:233-241): later entries overwrite earlier ones. */
  function FromEntries<K(!new), V>(entries: seq<Entry<K, V>>): (r: map<K, V>)
    ensures forall k :: k in r <==> exists i :: 0 <= i < |entries| && entries[i].key == k
  {
    if |entries| == 0 then map[]
    else
      var last := entries[|entries| - 1];
      var front := entries[..|entries| - 1];
      assert forall i :: 0 <= i < |front| ==> front[i] == entries[i];
      FromEntries(front)[last.key := last.value]
  }

  /** A key takes its value from the last entry that has it. */
  lemma {:induction false} FromEntriesLastWins<K(!new), V>(entries: seq<Entry<K, V>>, i: int)
    requires 0 <= i < |entries|
    requires forall j :: i < j < |entries| ==> entries[j].key != entries[i].key
    ensures entries[i].key in FromEntries(entries)
    ensures FromEntries(entries)[entries[i].key] == entries[i].value
  {
    if i < |entries| - 1 {
      var front := entries[..|entries| - 1];
      assert front[i] == entries[i];
      FromEntriesLastWins(front, i);
    }
  }

  /** Any listing of the entries of `m`, with distinct keys, rebuilds `m`. */
  lemma FromEntriesOfEntries<K(!new), V>(m: map<K, V>, entries: seq<Entry<K, V>>)
    requires forall i, j :: 0 <= i < j < |entries| ==> entries[i].key != entries[j].key
    requires forall i :: 0 <= i < |entries| ==> entries[i].key in m && entries[i].value == m[entries[i].key]
    requires forall k :: k in m ==> exists i :: 0 <= i < |entries| && entries[i].key == k
    ensures FromEntries(entries) == m
  {
    var r := FromEntries(entries);
    forall k | k in m
      ensures k in r && r[k] == m[k]
    {
      var i :| 0 <= i < |entries| && entries[i].key == k;
      FromEntriesLastWins(entries, i);
    }
  }

  /** `Entries` then `FromEntries` is the identity. */
  method EntriesRoundTrip<K(!new), V>(m: map<K, V>) returns (r: map<K, V>)
    ensures r == m
  {
    var entries := Entries(m);
    r := FromEntries(entries);
    FromEntriesOfEntries(m, entries);
  }

  // ---------------------------------------------- GetOrSet, GetOrDefault

  /** `GetOrSet` (map.go:407-415): the stored value when the key is present
      (the map unchanged), otherwise `value`, which is then stored. */
  function GetOrSet<K, V>(m: map<K, V>, key: K, value: V): (r: (V, map<K, V>))
    ensures key in r.1 && r.1[key] == r.0
    ensures key in m ==> r.0 == m[key] && r.1 == m
    ensures key !in m ==> r.0 == value && r.1.Keys == m.Keys + {key}
    ensures forall k :: k in m ==> k in r.1 && r.1[k] == m[k]
  {
    if key in m then (m[key], m) else (value, m[key := value])
  }

  /** `GetOrDefault` (map.go:593-598): the stored value or `defaultValue`. */
  function GetOrDefault<K, V>(m: map<K, V>, key: K, defaultValue: V): (r: V)
    ensures key in m ==> r == m[key]
    ensures key !in m ==> r == defaultValue
  {
    if key in m then m[key] else defaultValue
  }

  /** After `GetOrSet`, a second `GetOrSet` or a `GetOrDefault` returns the
      same value and changes nothing. */
  lemma GetOrSetSettles<K, V>(m: map<K, V>, key: K, value: V, other: V)
    ensures GetOrSet(GetOrSet(m, key, value).1, key, other) == GetOrSet(m, key, value)
    ensures GetOrDefault(GetOrSet(m, key, value).1, key, other) == GetOrSet(m, key, value).0
  {
  }
}
