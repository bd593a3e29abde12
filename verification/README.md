# ko-utils core in Dafny

A model of the pure core of the Go utility library `ko-utils`, with proofs
of what its functions promise. Each Go source file becomes one module:

- `cache/memory.go`: the in-memory cache.
  - `CacheStore` models the min-heap of expirations and the key map that
    points into it. It proves the heap operations keep the map and the heap
    linked and ordered.
  - `CacheMemory` models the operations: set, get, delete, exists, expire,
    get-all, cleanup, close, and the cleanup timer.
- `slice/slice.go`, `slice/slice_internal.go`: slice helpers (`SliceOps`) and
  the sorting routines (`SliceSort`).
- `maputil/map.go`, `maputil/ordered_map.go`, `maputil/concurrent_map.go`:
  map helpers (`MapUtil`), the insertion-ordered map (`OrderedMaps`) and the
  sharded map (`ConcurrentMaps`). Locks are left out.
- `strutil/str_utils.go`, `strutil/string_internal.go`: string helpers
  (`StrUtil`) and word splitting and case conversion (`StrWords`).
- `mathutil/mathutil.go`: integer helpers with Go's wrap-around (`MathUtil`).
- `crypto/basic.go`, `crypto/crypto.go`, `crypto/crypto_internal.go`: the
  encodings and the PKCS #7 padding around the block ciphers (`Crypto`).
- `validator/validator.go`: the string validators (`Validator`).
- `convertor/convertor.go`: the conversions (`Convertor`).
- `dateutil/time_utils.go`: calendar arithmetic (`DateUtil`).
- `random/random.go`: the table-size rounding and the version 4 UUID layout
  (`Random`).
- `jsonutil/json_util.go`: XML escaping and XML element names (`JsonUtil`).
- `xmlutil/xmlutil.go`: the element tree (`XmlUtil`).
- `urlutil/urlutil.go`: URL normalisation and schemes (`UrlUtil`).
- `formatter/formatter.go`: thousands separators (`Formatter`).
- `structs/tag.go`: struct tag parsing (`StructTag`).
- `retry/retry.go`: backoff strategies and the retry loop (`Retry`).
- `netutil/http_client.go`: configuration merging (`NetUtil`).
- `fileutil/file_utils.go`: file extensions and line splitting (`FileUtil`).

Shared modules stand for the parts of Go's standard library the code leans
on:

- `Wrappers`: `Option`, `Result`, and `Outcome`, which stands for "returns
  or panics".
- `GoInt`: truncating division and `int64` wrap-around.
- `Text`: `strings`.
- `NumText`: `strconv` digits.

What the programs read from outside becomes a parameter:

- the current time;
- random bytes and random draws;
- what a file holds;
- whether a retried call succeeds.

Strings are sequences of characters. The string functions are modelled
on single-byte text, where a byte index and a character index agree.

## Model

| member | source | states |
|---|---|---|
| CacheStore.LinkedKeysDistinct | cache/memory.go:42-65 | While the key map and the heap are linked, no key occupies two heap slots. |
| CacheStore.SwapFacts | cache/memory.go:42-46 | Exchanging two heap slots and rewriting both `index` fields keeps every item's index equal to its slot and the map pointing at it. No key's value or expiration changes, and exactly the two expirations trade places. |
| CacheStore.Swap | cache/memory.go:42-46 | `Swap` exchanges the two slots' items and gives each its new position as index. Every other slot is unchanged. |
| CacheStore.RootIsMinimum | cache/memory.go:36-39 | In a heap ordered by `Less`, the root expires no later than any other slot. |
| CacheStore.SiftUp | cache/memory.go:36-46 | Moving an item up with `Less` and `Swap`, from a heap whose only violation is that item's edge, gives a fully ordered heap. The keys, the entries and the length stay the same. |
| CacheStore.SiftDown | cache/memory.go:36-46 | Moving an item down past its earlier-expiring child keeps the links, the entries and the length. If it moved, the heap is ordered. If it did not, nothing changed and only the edge above it can be out of order. |
| CacheStore.Push | cache/memory.go:49-54 | Pushing an item with a new key keeps the map and heap linked and ordered. It adds exactly that key's value and expiration, and the heap grows by one. |
| CacheStore.Append | cache/memory.go:49-54 | `Push` appends the item with its position as index and keeps every earlier slot. The map gains exactly that key, pointing at the new slot. |
| CacheStore.Remove | cache/memory.go:57-65 | Removing slot `i` returns that slot's item, whose key was in the map. The cache loses exactly that key, the heap shrinks by one, and both invariants hold. |
| CacheStore.Fix | cache/memory.go:36-46 | Sifting the item at `i` down, or up when it did not move down, keeps the entries and the length. When only `i`'s edges were out of order, both invariants then hold. |
| CacheStore.Pop | cache/memory.go:57-65 | Popping a non-empty heap removes the root's key and nothing else. The removed item expires no later than any entry, and both invariants hold afterwards. |
| CacheStore.HeapSizeIsViewSize | cache/memory.go:32-34 | `Len` of the heap equals the number of keys in the map. |
| CacheStore.EmptyHeapEmptyView | cache/memory.go:231-235 | An empty heap means the cache holds no entries. |
| CacheStore.Take | cache/memory.go:95-97 | A present key leaves both structures and every other entry stays. An absent key changes nothing. |
| CacheStore.Put | cache/memory.go:94-99 | After replacing a key, it has exactly one entry, carrying the new value and expiration. Every other key keeps its entry, and both invariants hold. |
| CacheStore.RemoveThenSet | cache/memory.go:95-99 | Dropping a key's old entry and then writing it is the same as overwriting it. |
| CacheStore.TakeAll | cache/memory.go:138-143 | Deleting a list of keys removes exactly the listed keys, present ones from both structures; absent ones are ignored. |
| CacheStore.PopDue | cache/memory.go:252-261 | Popping while the root is not in the future removes exactly the entries expiring at or before `now`. Every other entry stays unchanged, and both invariants hold. |
| CacheStore.NothingDue | cache/memory.go:253-256 | When the root expires after `now`, every entry does, so stopping the loop there misses nothing. |
| CacheMemory.NextDelay | cache/memory.go:227-245 | The re-arm delay is one hour when the heap is empty. Otherwise it is never negative, and the timer fires at the root's expiration, or at once if that is already past. |
| CacheMemory.NextDelayMeaning | cache/memory.go:231-244 | The same rule over the cache's entries. The timer fires no later than any entry's expiration, or at once for one already past, and at the expiration of some entry. |
| CacheMemory.RootBoundsView | cache/memory.go:236 | The root item is a cache entry with the root's expiration, and no entry expires before it. |
| CacheMemory.Rearm | cache/memory.go:228-244 | Re-arming leaves the data alone and arms a timer at `now` that is not late for the current root. |
| CacheMemory.New | cache/memory.go:68-77 | A new cache, of any value type, is empty and open, and its timer is armed for an hour. |
| CacheMemory.SetVal | cache/memory.go:85-105 | After `SetVal` the key maps to the new value with expiration `now + ttl`, replacing any earlier entry. Every other entry stays, and a timer that was not late stays not late. |
| CacheMemory.AfterSet | cache/memory.go:100-103 | After a set, the timer is re-armed exactly when the new item is the heap root; otherwise the old timer is kept. |
| CacheMemory.TimerKeptBelowRoot | cache/memory.go:100-103 | When the new item is not the root, keeping the old timer is safe: it is still not late. |
| CacheMemory.TimerNotLateMeans | cache/memory.go:236-244 | A timer that is not late fires no later than any entry's expiration, or at once for an entry already expired when it was armed. |
| CacheMemory.GetVal | cache/memory.go:120-132 | A read returns a value iff the key is present and `now` is not after its expiration, and then it is the stored value. Reading does not change the cache. |
| CacheMemory.Del | cache/memory.go:135-149 | `Del` removes exactly the listed keys that are present; absent keys are a no-op. The timer is re-armed iff entries remain, and it never becomes late. |
| CacheMemory.AfterDel | cache/memory.go:144-147 | After a delete, the timer is re-armed exactly when the heap is non-empty. |
| CacheMemory.Exists | cache/memory.go:152-166 | `Exists` counts the argument positions whose key is present and unexpired at `now`, so the count is at most the number of arguments. |
| CacheMemory.Expire | cache/memory.go:169-186 | `Expire` on an absent key changes nothing. On a present key it keeps the value, sets the expiration to `now + ttl`, leaves every other entry unchanged, and re-arms the timer. |
| CacheMemory.GetAll | cache/memory.go:189-206 | `GetAll` reports every live entry exactly once, with its stored value and expiration, and no expired or absent key. |
| CacheMemory.CollectLive | cache/memory.go:194-204 | The loop over the item map reports each key at most once, only live items, and every live one. |
| CacheMemory.CleanupExpired | cache/memory.go:248-264 | Cleanup removes exactly the entries expiring at or before `now` and keeps the rest unchanged. It then re-arms the timer by the delay rule, so the timer is not late. |
| CacheMemory.Close | cache/memory.go:267-277 | Closing an open cache marks it closed and leaves both structures empty and valid. |
| CacheMemory.GetAfterSet | cache/memory.go:120-132 | After a set with lifetime `ttl`, a read at any time up to `now + ttl` returns the new value, and a later read returns nothing. |
| CacheMemory.CleanupKeepsOnlyLive | cache/memory.go:252-256 | After a cleanup at `now`, every read that succeeds agrees with the cache before the cleanup. The only entries that reads would still have returned but cleanup dropped are those expiring exactly at `now`. |
| SliceOps.Chunk | slice/slice.go:66-88 | `Chunk` of an empty input or a non-positive size is empty. Otherwise the chunks laid end to end give back the input, every chunk is non-empty and at most `size` long, and all but the last are exactly `size` long. |
| SliceOps.Concat | slice/slice.go:106-121 | The result is the slices laid end to end, in order and with every repetition kept, so an element is in it iff it is in one of the slices. |
| SliceOps.FlattenFront | slice/slice.go:114-118 | Copying the first slice and then the rest gives the first slice followed by the concatenation of the rest. |
| SliceOps.FlattenConcat | slice/slice.go:75-85 | Laying out two runs of chunks in turn is laying out their concatenation, which lets the chunk loop append one chunk at a time. |
| SliceOps.Difference | slice/slice.go:124-142 | `Difference` keeps no element of the compared slice, keeps every other element as often as it occurs, and keeps them in their original order (a subsequence of the input). |
| SliceOps.EqualUnordered | slice/slice.go:228-246 | `EqualUnordered` is true iff the two slices hold the same elements with the same multiplicities. |
| SliceOps.Tally | slice/slice.go:233-236 | The counting loop builds exactly the multiset of the first slice. |
| SliceOps.Replace | slice/slice.go:524-536 | `Replace` keeps the length. Position `i` becomes the new value iff it holds the old one and fewer than `n` earlier occurrences precede it (any number when `n` is negative). Every other position is unchanged. |
| SliceOps.ReplaceAll | slice/slice.go:539-541 | `ReplaceAll` replaces every occurrence and changes nothing else. |
| SliceOps.ReplaceAllRemovesOld | slice/slice.go:539-541 | When the replacement differs from the old value, `ReplaceAll` leaves no occurrence of it. |
| SliceOps.DeleteAt | slice/slice.go:602-614 | `DeleteAt` panics only for an out-of-range index into an empty slice. An in-range index removes exactly that position and shifts the rest down. An out-of-range index into a non-empty slice drops the last element. |
| SliceOps.Drop | slice/slice.go:637-651 | `Drop` is empty when `n` reaches the length and the input when `n` is not positive. Otherwise it is the suffix that remains after the first `n` elements. |
| SliceOps.DropRight | slice/slice.go:654-668 | `DropRight` is empty when `n` reaches the length and the input when `n` is not positive. Otherwise it is the prefix that remains before the last `n` elements. |
| SliceOps.DropSplits | slice/slice.go:637-668 | For `0 < n < len`, `DropRight(s, n)` followed by `Drop(s, len - n)` gives `s` back. |
| SliceOps.InsertAt | slice/slice.go:701-724 | `InsertAt` returns the input for an index outside `[0, len]` or a value of another type. Otherwise the element, or the whole inserted slice, sits at the index, with the input's prefix before it and its suffix after. |
| SliceOps.DeleteUndoesInsert | slice/slice.go:602-724 | Deleting at the index where one element was just inserted gives the original slice back. |
| SliceOps.UpdateAt | slice/slice.go:727-738 | `UpdateAt` keeps the length and every position but `index`. An in-range index gets the new value; an out-of-range index changes nothing. |
| SliceOps.UpdateAtRestores | slice/slice.go:727-738 | Writing back the old value undoes an update. |
| SliceOps.UniqueFrom | slice/slice.go:746-754 | The loop with a set of already-seen elements yields no duplicates. An element appears iff it occurs in the input and was not already seen, in order of first occurrence. |
| SliceOps.Unique | slice/slice.go:741-757 | `Unique` has no duplicates and holds exactly the input's elements, in order of first occurrence. |
| SliceOps.UniqueOfDistinct | slice/slice.go:741-757 | A slice without duplicates is its own `Unique`. |
| SliceOps.Union | slice/slice.go:842-856 | `Union` has no duplicates and holds exactly the elements of the input slices, in order of first occurrence across them. |
| SliceOps.Reverse | slice/slice.go:934-937 | After `Reverse`, position `k` holds what position `len - 1 - k` held. |
| SliceOps.ReverseCopy | slice/slice.go:941-949 | `ReverseCopy` has the input's length, and `result[k] == s[len - 1 - k]`. |
| SliceOps.ReverseInvolution | slice/slice.go:934-949 | Reversing twice gives the input back. |
| SliceSort.Swap | slice/slice_internal.go:88-90 | `swap` exchanges positions `i` and `j` and changes no other position. |
| SliceSort.SwapPermutes | slice/slice_internal.go:88-90 | A swap inside `[lo, hi]` rearranges that range and leaves everything outside it alone. |
| SliceSort.Partition | slice/slice_internal.go:71-86 | The partition returns `p` in `[lo, hi]` holding the old last element. Everything before `p` comes strictly before the pivot, and nothing after `p` does. The range is rearranged, and the rest is untouched. |
| SliceSort.QuickSortBy | slice/slice_internal.go:63-69 | `quickSortBy` with an irreflexive, transitive `less` sorts `[lo, hi]` as a rearrangement of itself and leaves every position outside the range unchanged. |
| SliceSort.Joined | slice/slice_internal.go:64-68 | Sorting both sides of a partition point sorts and rearranges the whole range. |
| SliceSort.SortBy | slice/slice.go:1041-1043 | `SortBy` yields a permutation of the input in which no later element comes strictly before an earlier one. |
| SliceSort.OrderLess | slice/slice_internal.go:40-61 | The comparison `partitionOrderedSlice` uses is `>` for "desc" and `<` otherwise, and both are strict orders. |
| SliceSort.QuickSort | slice/slice_internal.go:32-38 | `quickSort` leaves `[lo, hi]` ascending, or descending for "desc", as a rearrangement of itself, and leaves every other position unchanged. |
| SliceSort.Sort | slice/slice.go:1032-1038 | `Sort` returns a permutation of the input. It is descending when the first optional argument is "desc" and ascending otherwise. |
| MapUtil.Keys | maputil/map.go:13-23 | `Keys` lists every key of the map exactly once, in some order, so its length is the map's size. |
| MapUtil.Values | maputil/map.go:26-36 | `Values` has the map's size, and its `i`-th element is the value of the `i`-th key of some enumeration that visits every key once. |
| MapUtil.Merge | maputil/map.go:61-76 | The merged key set is the union of the inputs' key sets. |
| MapUtil.MergeLastWins | maputil/map.go:69-73 | For a key shared by several inputs, the merged value comes from the last map that holds it. |
| MapUtil.Filter | maputil/map.go:86-96 | `Filter` keeps exactly the entries satisfying the predicate, with their values. |
| MapUtil.OmitBy | maputil/map.go:122-132 | `OmitBy` keeps exactly the entries failing the predicate, with their values. |
| MapUtil.FilterOmitSplit | maputil/map.go:86-132 | `Filter` and `OmitBy` with the same predicate have disjoint key sets, and together they give back the map. |
| MapUtil.FilterByKeys | maputil/map.go:98-108 | `FilterByKeys` keeps exactly the entries whose key is listed. |
| MapUtil.OmitByKeys | maputil/map.go:134-144 | `OmitByKeys` keeps exactly the entries whose key is not listed. |
| MapUtil.FilterByKeysSplit | maputil/map.go:98-144 | `FilterByKeys` and `OmitByKeys` with the same keys split the map into two disjoint parts that together give it back. |
| MapUtil.Meet | maputil/map.go:168-176 | The reducer keeps exactly the keys of the first map that the second holds with an equal value. |
| MapUtil.Intersect | maputil/map.go:158-188 | `Intersect` of no maps is empty, and of one map is that map. Otherwise it keeps exactly the first map's keys that every map holds with an equal value. |
| MapUtil.MeetAllAgrees | maputil/map.go:178-185 | Folding the reducer over the remaining maps keeps exactly the keys every one of them holds with the base value. |
| MapUtil.Minus | maputil/map.go:191-200 | `Minus` keeps exactly the keys of A absent from B, with A's values. |
| MapUtil.IsDisjoint | maputil/map.go:203-210 | `IsDisjoint` is true iff the two maps share no key. |
| MapUtil.MinusDisjoint | maputil/map.go:191-210 | Subtracting a disjoint map changes nothing. |
| MapUtil.Entries | maputil/map.go:219-230 | `Entries` lists each key of the map once, with its value, and has the map's size. |
| MapUtil.FromEntries | maputil/map.go:233-241 | The key set of `FromEntries` is the set of keys the entries carry. |
| MapUtil.FromEntriesLastWins | maputil/map.go:236-238 | A key's value is the one from its last entry. |
| MapUtil.FromEntriesOfEntries | maputil/map.go:219-241 | Any list of distinct-key entries that covers a map exactly rebuilds that map. |
| MapUtil.EntriesRoundTrip | maputil/map.go:219-241 | `FromEntries(Entries(m)) == m`. |
| MapUtil.GetOrSet | maputil/map.go:407-415 | `GetOrSet` on a present key returns its value and leaves the map as it was. On an absent key it adds that key with the given value and returns it. No existing entry changes either way. |
| MapUtil.GetOrDefault | maputil/map.go:593-598 | `GetOrDefault` returns the stored value for a present key and the default otherwise, without writing. |
| MapUtil.GetOrSetSettles | maputil/map.go:407-415 | After one `GetOrSet`, a second with any value neither writes nor changes the answer, and `GetOrDefault` sees the set value. |
| OrderedMaps.Reindex | maputil/ordered_map.go:293-298 | Rebuilding the index from the key order maps exactly the listed keys, each to a position holding that key. |
| OrderedMaps.RemoveAt | maputil/ordered_map.go:64 | Unlinking a list element keeps the keys before it and shifts those after it down by one. |
| OrderedMaps.RemoveAtKeys | maputil/ordered_map.go:64 | Removing a key from a duplicate-free order keeps it duplicate-free, and drops exactly that key. |
| OrderedMaps.New | maputil/ordered_map.go:22-28 | A new ordered map has no data, an empty order and an empty index. |
| OrderedMaps.Set | maputil/ordered_map.go:31-46 | `Set` keeps the data, the order and the index in agreement and maps the key to the value. A new key is appended at the back; an existing key is moved from its place to the back. |
| OrderedMaps.MoveToBack | maputil/ordered_map.go:35-39 | Setting a present key updates its value and moves it from its position to the back, keeping the structures in agreement. |
| OrderedMaps.PushBack | maputil/ordered_map.go:42-45 | Setting an absent key adds it with its value at the back of the order, keeping the structures in agreement. |
| OrderedMaps.Delete | maputil/ordered_map.go:59-68 | `Delete` removes the key from the data and from its place in the order and keeps the structures in agreement. An absent key changes nothing. |
| OrderedMaps.Get | maputil/ordered_map.go:49-56 | `Get` finds a value iff the key is in the data, and returns that key's value. |
| OrderedMaps.Clear | maputil/ordered_map.go:71-78 | `Clear` leaves the same empty structures as a new map. |
| OrderedMaps.Front | maputil/ordered_map.go:81-105 | `Front` reports nothing iff the map is empty. Otherwise it returns the first key in the order, with its value. |
| OrderedMaps.Back | maputil/ordered_map.go:108-132 | `Back` reports nothing iff the map is empty. Otherwise it returns the last key in the order, with its value. |
| OrderedMaps.Keys | maputil/ordered_map.go:150-161 | `Keys` follows the order and lists every key of the data exactly once. |
| OrderedMaps.Values | maputil/ordered_map.go:164-176 | `Values` has one value per key, in key order, each the data's value for that key. |
| OrderedMaps.Len | maputil/ordered_map.go:179-184 | `Len` is the number of keys in the data. |
| OrderedMaps.ListedOnce | maputil/ordered_map.go:13-19 | While the structures agree, the order lists as many keys as the data holds. |
| OrderedMaps.LenIsKeysLength | maputil/ordered_map.go:179-184 | `Len` equals the number of keys `Keys` returns. |
| OrderedMaps.Contains | maputil/ordered_map.go:187-194 | `Contains` holds exactly when `Get` finds the key. |
| OrderedMaps.GetAfterSet | maputil/ordered_map.go:49-56 | `Get` after `Set(k, v)` returns `v` for `k` and leaves every other key's read unchanged. |
| OrderedMaps.SetMovesToBack | maputil/ordered_map.go:31-46 | After any `Set`, `Back` is the key just set, with its value. |
| OrderedMaps.GetAfterDelete | maputil/ordered_map.go:59-68 | After `Delete(k)` the map no longer contains `k`. |
| OrderedMaps.SortByKey | maputil/ordered_map.go:280-299 | `SortByKey` keeps every key-value binding and the agreement of the structures. It rearranges the order so that no later key comes strictly before an earlier one by `less`. |
| OrderedMaps.PermutedKeys | maputil/ordered_map.go:289-298 | Rearranging a duplicate-free key order keeps it duplicate-free, with the same keys. |
| ConcurrentMaps.XorByte | maputil/concurrent_map.go:138 | XOR-ing a byte into a 32-bit hash keeps it in 32 bits, keeps the upper 24 bits, and XORs the low 8 bits bit by bit. |
| ConcurrentMaps.Fnv1 | maputil/concurrent_map.go:132-141 | The reference FNV-1 hash, one multiply-then-XOR per byte from the offset basis, stays below 2^32. |
| ConcurrentMaps.Fnv32 | maputil/concurrent_map.go:132-141 | The hashing loop stays within 32 bits and agrees with the FNV-1 definition, which multiplies by 16777619 and then XORs in each byte, starting from the offset basis 2166136261, modulo 2^32. |
| ConcurrentMaps.Fnv1OfA | maputil/concurrent_map.go:132-141 | The 32-bit FNV-1 hash of "a" is 0x050c5d7e, the published test vector. |
| ConcurrentMaps.Shard | maputil/concurrent_map.go:127-130 | The shard of a key is below the shard count, and it is a function of the key alone. |
| ConcurrentMaps.New | maputil/concurrent_map.go:18-34 | A new map is empty and well formed. A non-positive shard count becomes 32. |
| ConcurrentMaps.ViewAt | maputil/concurrent_map.go:47-55 | A key is in the whole map iff it is in the shard it hashes to, with the same value. |
| ConcurrentMaps.Set | maputil/concurrent_map.go:37-44 | `Set` maps the key to the value, leaves every other key alone, and keeps every key in its own shard. |
| ConcurrentMaps.Get | maputil/concurrent_map.go:47-55 | `Get` finds a value iff the key is in the map, and returns that key's value. |
| ConcurrentMaps.Delete | maputil/concurrent_map.go:82-88 | `Delete` removes just that key. |
| ConcurrentMaps.GetOrSet | maputil/concurrent_map.go:58-79 | `GetOrSet` on a present key returns its value with `true` and changes nothing. On an absent key it stores the value and returns it with `false`. |
| ConcurrentMaps.GetAndDelete | maputil/concurrent_map.go:91-103 | `GetAndDelete` returns the key's value and removes it. For an absent key it returns nothing and leaves the map as it was. |
| ConcurrentMaps.Has | maputil/concurrent_map.go:106-109 | `Has` holds exactly for the keys in the map. |
| ConcurrentMaps.GetAfterSetAndDelete | maputil/concurrent_map.go:37-88 | `Get` after `Set(k, v)` returns `v` for `k`, and after `Delete(k)` returns nothing for `k`. Other keys read as before either way. |
| StrUtil.WithoutNul | strutil/str_utils.go:310 | Deleting NUL characters leaves no NUL and never lengthens the string. A NUL-free string is left alone. |
| StrUtil.WithoutNulKeeps | strutil/str_utils.go:310 | Every character other than NUL occurs in the cleaned string iff it occurs in the input. |
| StrUtil.Reverse | strutil/str_utils.go:203-209 | `Reverse` keeps the length and puts character `len - 1 - k` at position `k`. |
| StrUtil.ReverseTwice | strutil/str_utils.go:203-209 | Reversing twice gives the input back. |
| StrUtil.Wrap | strutil/str_utils.go:225-235 | `Wrap` returns the input when it or the wrapper is empty. Otherwise the result starts and ends with the wrapper and holds the input between them. |
| StrUtil.Unwrap | strutil/str_utils.go:238-246 | `Unwrap` returns the input unless the token is non-empty and both starts and ends it with room for two copies. In that case the token, the result and the token again rebuild the input. |
| StrUtil.UnwrapWrap | strutil/str_utils.go:225-246 | `Unwrap(Wrap(s, t), t) == s` for every `s` and `t`, including the empty cases. |
| StrUtil.Pieces | strutil/str_utils.go:259-290 | The splitting loop yields pieces without the separator. Kept empty pieces join back to the input with the separator; with removal, no piece is empty. |
| StrUtil.FirstPieceClean | strutil/str_utils.go:260 | The text before the first separator contains no separator. |
| StrUtil.SplitEx | strutil/str_utils.go:249-291 | `SplitEx` with an empty separator is empty. Otherwise no piece contains the separator; without removal the pieces joined by it give the input back; with removal no piece is empty. |
| StrUtil.NonEmpty | strutil/str_utils.go:265-269 | Dropping empty strings leaves none. |
| StrUtil.SplitExRemovesEmpty | strutil/str_utils.go:249-291 | Splitting with removal equals splitting without it and then dropping the empty pieces. |
| StrUtil.Substring | strutil/str_utils.go:294-311 | With `offset` an `int`, `length` a `uint` and the text within `int` range, `Substring` panics with a slice-bounds error exactly when the start is inside the text and `start + length` passes the largest `int`, since `int(length)` and the addition wrap. Otherwise it returns at most `length` characters, no NUL, and is the window from the start position with its NULs deleted. |
| StrUtil.SliceEnd | strutil/str_utils.go:305-308 | When `start + length` fits in an `int` the end is that sum capped at the text's size; when it does not, the wrapped end falls before the start. |
| StrUtil.SubstringWindow | strutil/str_utils.go:297-307 | The window is empty for an offset past the end. For an offset in range it starts at the offset. A negative offset counts from the end, and one before the start is clamped to 0. The window runs for `length` characters or up to the end, whichever comes first. |
| StrUtil.SubstringSuffix | strutil/str_utils.go:294-311 | On NUL-free text, a window reaching the end from a forward or backward offset is exactly the suffix. |
| StrUtil.SuffixFrom | strutil/str_utils.go:294-311 | On NUL-free text, a window from the start position to the end returns the suffix from there. |
| StrUtil.HideString | strutil/str_utils.go:422-439 | `HideString` returns the input for a start outside it, a negative end, `start > end` or an empty replacement. Otherwise the prefix before `start` and the text from `min(end, len)` are kept, and between them stands the replacement repeated once per hidden character. |
| StrUtil.HideOneChar | strutil/str_utils.go:422-439 | With a one-character replacement the length is kept, and exactly the positions in `[start, min(end, len))` become that character. |
| StrUtil.Rotate | strutil/str_utils.go:462-480 | `Rotate` keeps the length and moves each character `shift` places to the right, cyclically, for either sign of `shift`. |
| StrUtil.RotateBack | strutil/str_utils.go:462-480 | Rotating by `k` and then by `-k` gives the input back. |
| StrUtil.After | strutil/str_utils.go:483-491 | `After` is the text following the first occurrence of a non-empty marker, and the input when there is none. |
| StrUtil.AfterLast | strutil/str_utils.go:494-502 | `AfterLast` is the text following the last occurrence of a non-empty marker, which holds no further occurrence, and the input otherwise. |
| StrUtil.Before | strutil/str_utils.go:505-513 | `Before` is the text preceding the first occurrence of a non-empty marker, which holds no occurrence, and the input otherwise. |
| StrUtil.BeforeLast | strutil/str_utils.go:516-524 | `BeforeLast` is the text preceding the last occurrence of a non-empty marker, and the input otherwise. |
| StrUtil.BeforeAfterJoin | strutil/str_utils.go:483-524 | When a non-empty marker occurs, `Before + marker + After == s`, and likewise for the last occurrence. When it does not occur, all four return `s`. |
| StrUtil.IsEqualAll | strutil/str_utils.go:532-543 | `IsEqualAll` is true iff every argument equals the first, so it is true for no arguments. |
| StrUtil.HasPrefixAny | strutil/str_utils.go:384-394 | `HasPrefixAny` is true iff the string is non-empty and some listed prefix starts it. |
| StrUtil.RepeatPad | strutil/string_internal.go:141-148 | The padding fill has exactly the requested length and is a prefix of the pad string repeated. |
| StrUtil.PadAtPosition | strutil/string_internal.go:115-152 | `padAtPosition` returns the input when it is already long enough. Otherwise the result has exactly the requested length, the input at the left share's offset, and a repeated-pad prefix on each side; an empty pad string means " ". |
| StrUtil.Pad | strutil/str_utils.go:162-164 | `Pad` returns a long enough input unchanged. Otherwise it centres the input in exactly `size` characters: half the padding, rounded down, on the left and the rest on the right. Each side is a prefix of the pad string repeated, and an empty pad string means " ". |
| StrUtil.PadStart | strutil/str_utils.go:168-170 | `PadStart` puts all the padding on the left. |
| StrUtil.PadEnd | strutil/str_utils.go:174-176 | `PadEnd` puts all the padding on the right. |
| StrWords.ToLower | strutil/string_internal.go:74-79 | `toLower` moves exactly the upper-case ASCII letters, each to the lower-case letter 32 code points above, and leaves every other character alone. |
| StrWords.ToUpper | strutil/string_internal.go:90-95 | `toUpper` moves exactly the lower-case ASCII letters, each to the upper-case letter 32 code points below, and leaves every other character alone. |
| StrWords.CaseRoundTrip | strutil/string_internal.go:74-95 | Lower-casing then upper-casing an upper-case letter gives it back, and the reverse for lower-case letters. Neither conversion changes whether a character is a letter or digit. |
| StrWords.Fold | strutil/string_internal.go:82-103 | `toLowerAll` and `toUpperAll` keep the length and convert each character on its own. |
| StrWords.CharType | strutil/string_internal.go:15-24 | Every character gets one of the four classes, and class 4 is exactly the characters that are neither letters nor digits. |
| StrWords.Runs | strutil/string_internal.go:14-32 | The first loop cuts the input into maximal runs of one class, which laid end to end give the input back. There are runs iff the input is non-empty, and the last run has the class of the last character. |
| StrWords.HandOff | strutil/string_internal.go:35-40 | One round of the second loop moves the last letter of an upper-case run to the front of a following lower-case run and touches no other run. Otherwise it changes nothing. |
| StrWords.HandOffKeeps | strutil/string_internal.go:34-41 | A hand-off keeps the text and keeps every run within one class, apart from the leading capital. |
| StrWords.HandOffFrom | strutil/string_internal.go:34-41 | The whole second loop keeps the number of runs, the text, and the run shapes. |
| StrWords.Pieces | strutil/string_internal.go:14-41 | The two loops give as many pieces as there are runs, laid end to end they give back the input, and each piece is a single class apart from a hand-off capital. |
| StrWords.AlnumFoldPure | strutil/string_internal.go:44-53 | The filter keeps a letter-or-digit run case-folded in full and drops any other run. |
| StrWords.Words | strutil/string_internal.go:44-53 | Every word that survives the filter is non-empty. |
| StrWords.WordsText | strutil/string_internal.go:44-53 | The words laid end to end are the input's letters and digits in order, case-folded. |
| StrWords.WordsShape | strutil/string_internal.go:44-53 | Every character of every word is a digit or a letter of the requested case. |
| StrWords.WordsMembers | strutil/string_internal.go:44-53 | A word is in the result iff some piece starts with a letter or digit and the word is that piece case-folded. |
| StrWords.SplitIntoStrings | strutil/string_internal.go:8-56 | For single-byte input, the words are exactly the filtered runs of the two loops. Every word is non-empty and holds only digits and letters of the requested case. The words laid end to end are the input's letters and digits in order, case-folded. |
| MathUtil.Exponent | mathutil/mathutil.go:12-24 | `Exponent(x, n)` is `x^n` wrapped to `int64` for `n >= 0`, and 1 for every negative `n`, because the truncated halving reaches 0 without an odd step of 1. |
| MathUtil.ExponentStep | mathutil/mathutil.go:17-23 | One squaring step: wrapping after each multiplication gives the wrapped power of `n` from the wrapped power of `n / 2`. |
| MathUtil.ExponentExact | mathutil/mathutil.go:12-24 | When `x^n` fits in `int64`, `Exponent` returns it exactly. |
| MathUtil.Fibonacci | mathutil/mathutil.go:27-38 | `Fibonacci` is 0 for `n <= 0` and 1 for `n` of 1 and 2. |
| MathUtil.FibonacciLinear | mathutil/mathutil.go:33-37 | For `n >= 3`, `Fibonacci(a, b, n)` is `F(n-2)·a + F(n-1)·b` wrapped to `int64`, where `F` is the standard Fibonacci sequence. |
| MathUtil.FibonacciStandard | mathutil/mathutil.go:27-38 | `Fibonacci(1, 1, n)` is the standard `F(n)` wrapped to `int64`. |
| MathUtil.Factorial | mathutil/mathutil.go:41-52 | On a `uint`, `Factorial(n)` never returns exactly when `n` is `MaxUint64`, since `i <= n` then always holds and `i++` wraps. Otherwise it returns `n!` modulo 2^64, the `uint` product. |
| MathUtil.FactorialLoopEnds | mathutil/mathutil.go:47-49 | Below `MaxUint64`, the loop from `i` with `result = (i-1)!` modulo 2^64 stops with `n!` modulo 2^64. |
| MathUtil.FactorialLoopEndless | mathutil/mathutil.go:47-49 | For `n = MaxUint64`, every `uint` passes `i <= n`, so the loop has not stopped however many rounds it runs. |
| MathUtil.FactBelowTwoTo64 | mathutil/mathutil.go:41-52 | Up to `n = 20`, `n!` fits in 64 bits, so `Factorial` is exact. |
| MathUtil.FactFalling | mathutil/mathutil.go:369-376 | `n! = n·(n-1)···(n-k+1) · (n-k)!`, the identity `Permutation` divides by. |
| MathUtil.FactBinom | mathutil/mathutil.go:379-387 | `C(n, k)·k!·(n-k)! = n!`, the identity `Combination` divides by. |
| MathUtil.Permutation | mathutil/mathutil.go:369-376 | On `uint`s, `Permutation` is 0 when `n < k`. For `k <= n` it never returns exactly when `n` is `MaxUint64`, inside `Factorial(n)`. Below that it panics exactly when the wrapped `(n-k)!` is 0, and for `n <= 20` it is `n!/(n-k)!`. |
| MathUtil.Divide | mathutil/mathutil.go:375 | Unsigned division panics iff the divisor is 0, and otherwise returns the floor quotient. |
| MathUtil.PermutationExact | mathutil/mathutil.go:373-375 | For `k <= n <= 20`, dividing the two computed factorials gives exactly the falling factorial. |
| MathUtil.Combination | mathutil/mathutil.go:379-387 | On `uint`s, `Combination` is 0 when `n < k`. For `k <= n` it never returns exactly when `n` is `MaxUint64`, inside `Factorial(n)`. Below that it panics exactly when the wrapped product `k!·(n-k)!` is 0, and for `n <= 20` it is `C(n, k)`. |
| MathUtil.CombinationExact | mathutil/mathutil.go:383-386 | For `k <= n <= 20`, the computed quotient is exactly the binomial coefficient. |
| MathUtil.BinomPositive | mathutil/mathutil.go:379-387 | Every binomial coefficient with `k <= n` is at least 1. |
| MathUtil.Max | mathutil/mathutil.go:132-146 | `Max` panics iff there are no items. Otherwise it returns one of the items, and no item exceeds it. |
| MathUtil.Min | mathutil/mathutil.go:170-181 | `Min` panics iff there are no items. Otherwise it returns one of the items, and no item is below it. |
| MathUtil.Gcd | mathutil/math_internal.go:5-10 | `gcd(a, 0) == a`, and otherwise `gcd(a, b) == gcd(b, a % b)` with Go's `%`, terminating on `|b|`. The result is non-negative for non-negative inputs. |
| MathUtil.GcdGreatest | mathutil/math_internal.go:5-10 | For non-negative inputs, `gcd` divides both, and every positive common divisor divides it. |
| MathUtil.EuclidStep | mathutil/math_internal.go:9 | A greatest common divisor of `b` and `a % b` is one of `a` and `b`. |
| MathUtil.GcdNonZero | mathutil/math_internal.go:5-10 | The gcd of two numbers that are not both 0 is not 0, so `lcm` never divides by 0. |
| MathUtil.GcdAbs | mathutil/math_internal.go:5-10 | Go's remainder only moves signs: the absolute value of `gcd` is the gcd of the absolute values. |
| MathUtil.Lcm | mathutil/math_internal.go:12-17 | `lcm` panics iff either argument is 0. |
| MathUtil.LcmNonZero | mathutil/math_internal.go:12-17 | For non-zero arguments `lcm` returns a non-zero value. |
| MathUtil.LcmCommonMultiple | mathutil/math_internal.go:12-17 | For positive `a` and `b`, `lcm` is positive and a multiple of both. |
| MathUtil.GCD | mathutil/mathutil.go:291-301 | `GCD` panics iff there are no arguments. For non-negative arguments it returns a non-negative common divisor of all of them that every positive common divisor divides, with or without the early return on 1. |
| MathUtil.LCM | mathutil/mathutil.go:304-310 | `LCM` panics iff there are no arguments or one is 0. For positive arguments it returns a positive common multiple of all of them. |
| MathUtil.Range | mathutil/mathutil.go:222-235 | `Range(start, count)` on `int64` has `|count|` elements, and element `i` is `start + i` wrapped to 64 bits. When the last element fits, no wrap happens and element `i` is exactly `start + i`. |
| MathUtil.CountUp | mathutil/mathutil.go:230-232 | Counting `n` times from `j` with the 64-bit increment gives `n` elements, element `i` being `j + i` wrapped. |
| MathUtil.RangeWrapsAtMax | mathutil/mathutil.go:230-232 | Counting two from the largest `int64` wraps: the second element is the smallest `int64`. |
| MathUtil.Stepping | mathutil/mathutil.go:245-247 | The stepping loop on unbounded integers yields `i + k·step`, every one below `end`, and stops at the first step that reaches `end`. It is the reference the 64-bit loop is compared with. |
| MathUtil.LoopRunCons | mathutil/mathutil.go:245-247 | A value below `end` followed by a run of the loop from its wrapped successor is a run of the loop from that value. |
| MathUtil.StepLoop | mathutil/mathutil.go:245-247 | Whenever the bounded unfolding of the loop finishes, its output is a run of the loop: it starts at `i`, every element is an `int64` below `end`, each is the previous one plus `step` wrapped to 64 bits, and the wrapped step after the last reaches `end`. |
| MathUtil.RangeWithStep | mathutil/mathutil.go:238-250 | `RangeWithStep` on `int64` is empty when `start >= end` or `step == 0`. Otherwise, when the loop ends, its output starts at `start`, each element is the previous plus `step` with 64-bit wrap-around, every element is below `end`, and the step after the last reaches `end`. That the loop's run is always returned when there is one, so that no result means the loop never ends, is stated by `MathUtil.RangeWithStepRuns`. |
| MathUtil.RangeWithStepRuns | mathutil/mathutil.go:238-250 | Whenever the loop from `start` ends with some output, `RangeWithStep` returns exactly that output, so no result means the loop never ends. For a non-zero step, a result is returned iff it is the loop's run. |
| MathUtil.StepLoopOfRun | mathutil/mathutil.go:245-247 | With at least as many rounds allowed as the run is long, the bounded unfolding of the loop finishes with that run. |
| MathUtil.RunShift | mathutil/mathutil.go:245-247 | In a run of the loop, two equal values stay equal any number of steps later, because each value fixes the next. |
| MathUtil.RunDistinct | mathutil/mathutil.go:245-247 | A run of the loop never repeats a value. |
| MathUtil.DistinctInt64Bound | mathutil/mathutil.go:245-247 | A run of distinct `int64` values has at most 2^64 elements, so 2^64 rounds always suffice for a loop that ends. |
| MathUtil.StepLoopAgrees | mathutil/mathutil.go:245-247 | While no step passes the largest `int64`, the 64-bit loop gives the same run as the unbounded one once enough steps are allowed. |
| MathUtil.RangeWithStepNoWrap | mathutil/mathutil.go:238-250 | For a positive step whose last addition cannot pass the largest `int64`, `RangeWithStep` is the unbounded stepping `start, start + step, …` below `end`. |
| MathUtil.RangeWithStepWraps | mathutil/mathutil.go:245-247 | `RangeWithStep(1, 2, MaxInt64)` wraps past the top and yields `[1, MinInt64, -1]`, values the unbounded loop would not produce. |
| MathUtil.EvenStepsEndless | mathutil/mathutil.go:245-247 | From an even value, the loop up to the odd largest `int64` with step 2 only meets even values, all below the bound, so it never ends. |
| MathUtil.RangeWithStepEndless | mathutil/mathutil.go:245-247 | `RangeWithStep(MaxInt64 - 1, MaxInt64, 2)` never ends: every step wraps back below `end`. |
| MathUtil.RangeUnitStep | mathutil/mathutil.go:222-250 | For `start <= end`, `RangeWithStep(start, end, 1)` equals `Range(start, end - start)`. |
| MathUtil.UnitStepping | mathutil/mathutil.go:222-250 | Unbounded stepping by 1 from `start` to `end` gives the same elements as counting `end - start` from `start`. |
| MathUtil.SquareRootEnough | mathutil/mathutil.go:281-287 | Trial division up to the square root suffices: no divisor below `i` with `i·i > n` means `n` is prime. |
| MathUtil.IsPrime | mathutil/mathutil.go:276-288 | `IsPrime(n)` holds iff `n >= 2` and no number in `[2, n)` divides `n`. |
| MathUtil.AbsInt64 | mathutil/mathutil.go:336-342 | `Abs` of a non-minimum `int64` is non-negative and is `x` or `-x`. The minimum value wraps back to itself. |
| Crypto.Pkcs7Padding | crypto/crypto_internal.go:45-49 | `pkcs7Padding` panics iff the block size is not positive: a zero size divides by zero and a negative one asks for a negative repeat count. Otherwise it appends `k = blockSize - len % blockSize` bytes, `1 <= k <= blockSize`, each equal to `k`, keeping the input as prefix, so the length becomes the next multiple of the block size strictly above it. |
| Crypto.Pkcs7UnPadding | crypto/crypto_internal.go:52-56 | `pkcs7UnPadding` panics iff the input is empty or its last byte exceeds its length. Otherwise it drops as many trailing bytes as the last byte says, without checking them. |
| Crypto.Pkcs5UnPadding | crypto/crypto_internal.go:66-76 | `pkcs5UnPadding` gives nil iff the input is empty, its last byte is 0, or its last byte exceeds its length. Otherwise it gives a strictly shorter prefix of the input. |
| Crypto.PaddingRoundTrip | crypto/crypto_internal.go:45-76 | For block sizes 1 to 255, both unpadding functions undo `pkcs7Padding`, and so `pkcs5Padding` too, as section 6.3 of RFC 5652 requires. |
| Crypto.UnPaddingAgree | crypto/crypto_internal.go:52-76 | Where `pkcs5UnPadding` accepts, `pkcs7UnPadding` returns the same bytes. Where `pkcs7UnPadding` panics, `pkcs5UnPadding` gives nil. The only other difference is a zero pad byte, which `pkcs7UnPadding` treats as nothing to drop. |
| Crypto.Pkcs7UnPaddingDoesNotValidate | crypto/crypto_internal.go:52-56 | Concrete inputs: `[7, 9, 1]` unpads to `[7, 9]` although 9 is no pad byte, `[0]` comes back whole, and `[3, 3]` panics. |
| Crypto.StrictUnPadding | crypto/crypto.go:75-88 | The padding removal inside `AesEcbDecrypt` gives nil on empty input. Otherwise it succeeds iff the last byte `n` is in `1..blockSize` and each of the last `n` bytes equals `n`, and then it drops those `n` bytes. |
| Crypto.StrictIsStricter | crypto/crypto.go:75-88 | Whatever non-empty block-aligned input the strict check accepts, `pkcs7UnPadding` maps to the same bytes. On empty input the strict check returns nil where `pkcs7UnPadding` panics. |
| Crypto.KeyFoldShort | crypto/crypto_internal.go:21-30 | A key no longer than `size` folds to itself followed by zero bytes. |
| Crypto.GenerateKey | crypto/crypto_internal.go:21-30 | `generateAesKey` returns `size` bytes where byte `j` is the XOR of every key byte at an offset congruent to `j` modulo `size`. |
| Crypto.GenerateDesKey | crypto/crypto_internal.go:33-42 | `generateDesKey` is the same fold into 8 bytes. |
| Crypto.Ecb | crypto/crypto.go:47-49 | The ECB loop maps a block-aligned input to an output of the same length. |
| Crypto.EcbRoundTrip | crypto/crypto.go:47-72 | With a block cipher whose decryption undoes its encryption under the same key, decrypting the ECB blocks gives back the input. |
| Crypto.AesEcbEncrypt | crypto/crypto.go:24-52 | `AesEcbEncrypt` panics iff the key length is not 16, 24 or 32. Otherwise the output length is `len + (16 - len % 16)`, a non-zero multiple of 16 above the input's length. |
| Crypto.AesEcbDecrypt | crypto/crypto.go:55-89 | `AesEcbDecrypt` panics for a bad key length or an input that is not a multiple of 16, and gives nil for empty input. Otherwise it succeeds iff the decrypted padding count is in `1..16` and every pad byte equals it, and then strips the padding. |
| Crypto.AesEcbRoundTrip | crypto/crypto.go:24-89 | For every valid key length and every plaintext, with the block cipher abstracted as invertible, `AesEcbDecrypt(AesEcbEncrypt(d, k), k) == d`. |
| Crypto.DesEcbEncrypt | crypto/crypto.go:363-378 | `DesEcbEncrypt` takes any key and pads to the next multiple of 8 strictly above the input length. |
| Crypto.DesEcbDecrypt | crypto/crypto.go:381-399 | `DesEcbDecrypt` panics iff the input is not a multiple of 8, and gives nil for empty input. |
| Crypto.DesEcbRoundTrip | crypto/crypto.go:363-399 | DES-ECB decryption undoes encryption under any key, with the cipher abstracted as invertible. |
| Crypto.DesModeKey | crypto/crypto.go:403-405 | The DES CBC, CTR, CFB and OFB functions panic iff the key is not exactly 8 bytes, and use it unchanged. |
| Crypto.StringBytes | crypto/basic.go:162 | Converting single-byte text gives one byte per character, with the same code. |
| Crypto.Xor | crypto/basic.go:151-180 | `Xor` panics iff there are no arguments, and gives nil iff some argument is neither text nor bytes. Otherwise the result is as long as the shortest argument, and byte `i` is the XOR of every argument's byte `i`. |
| Crypto.XorAtAppend | crypto/basic.go:175-179 | The XOR over two lists of arguments is the XOR of the two partial results. |
| Crypto.XorAtOrder | crypto/basic.go:175-179 | The XOR does not depend on argument order, and an argument list repeated twice gives 0. |
| Validator.IsASCII | validator/validator.go:110-117 | Text is ASCII iff every character code is at most 127. |
| Validator.IsIntStr | validator/validator.go:175-177 | With the pattern of line 22, text is an integer numeral iff it is an optional sign followed by at least one decimal digit and nothing else. |
| Validator.IsPort | validator/validator.go:215-220 | Text is a port iff it is a decimal numeral, sign allowed, whose value lies strictly between 0 and 65536. |
| Validator.PortFormatted | validator/validator.go:215-220 | Every number from 1 to 65535, written in decimal, is accepted as a port. |
| Validator.IsBin | validator/validator.go:434-436 | With the pattern of line 33, text is binary iff, after an optional `0b`, it is a non-empty run of `0` and `1`. |
| Validator.BinFormatted | validator/validator.go:434-436 | Any natural number written in base 2 is accepted, with or without the `0b` prefix. |
| Validator.IsHex | validator/validator.go:439-441 | With the pattern of line 34, text is hexadecimal iff, after an optional `#`, `0x` or `0X`, it is a non-empty run of hex digits of either case. |
| Validator.HexFormatted | validator/validator.go:439-441 | A colour code built from three bytes, and any natural number written in base 16 with or without `0x`, is accepted. |
| Validator.IsBase64URL | validator/validator.go:444-446 | With the pattern of line 32, text is URL-safe Base64 iff it is groups of four URL-alphabet characters ending in an optional tail of two characters with an optional `==`, or three with an optional `=`. The empty text is accepted. |
| Validator.QuadSplit | validator/validator.go:32 | Peeling one full group of four characters off the front keeps the text in the Base64 URL shape, and putting one back keeps it too. |
| Validator.IsJWT | validator/validator.go:449-462 | Whatever `IsJWT` accepts holds exactly two dots. |
| Validator.JwtParts | validator/validator.go:449-462 | For three dot-free parts joined by dots, `IsJWT` holds iff each part is URL-safe Base64. |
| Validator.JwtEmptyParts | validator/validator.go:449-462 | Two dots alone pass as a token, because the empty text passes as URL-safe Base64. |
| Validator.ThreePieces | validator/validator.go:450 | Splitting three dot-free parts joined by dots gives back the three parts. |
| Validator.SplitAtDot | validator/validator.go:450 | Splitting at a dot peels off the dot-free text before the first dot as the first piece. |
| Validator.IsGBKAsWritten | validator/validator.go:387-408 | As written, the scan accepts every byte sequence. |
| Validator.GbkAsWrittenAcceptsAll | validator/validator.go:387-408 | As written, `[0xff, 0xff]` and the lone lead byte `[0x81]` are accepted, though neither is GBK text. |
| Validator.IsGBK | validator/validator.go:387-408 | With the single-byte test at 0x7F, the scan accepts exactly the texts made of ASCII bytes and valid GBK lead and trail byte pairs. |
| Validator.IsChineseIdNum | validator/validator.go:258-280 | With the pattern of line 27 and the tables of lines 43-46, an ID number is accepted iff it is 17 digits followed by a digit or `X`/`x`, its first two digits are a listed province, its birth date is a real date that is not after today and whose year is at least 1900, and its check character passes the ISO 7064 MOD 11-2 check. |
| Validator.ChecksumIsIso | validator/validator.go:273-279 | Looking the weighted digit sum up in the table of check characters is the same as the ISO 7064 MOD 11-2 check. |
| Validator.WeightsArePowers | validator/validator.go:43 | Each weight in the factor table is twice the next one modulo 11, so the weights are powers of 2 modulo 11. |
| Validator.IsoIsWeighted | validator/validator.go:273-277 | The running ISO 7064 computation over the first n digits equals the weighted digit sum modulo 11, after scaling by the weight. |
| Validator.CheckChar | validator/validator.go:273-279 | The check character from the table matches the last character iff the partial sum and the character's value add up to 1 modulo 11. |
| Convertor.ColorRGBToHex | convertor/convertor.go:249-265 | For components from 0 to 255, the colour code is `#` followed by six lowercase hex digits. |
| Convertor.HexComponentDigits | convertor/convertor.go:250-262 | A component from 0 to 255, zero-padded to two lowercase hex digits, reads back as the same number. |
| Convertor.ColorHexToRGB | convertor/convertor.go:238-246 | After one leading `#` is dropped, text that does not parse as a 32-bit base-16 number gives (0, 0, 0). Otherwise green and blue are bytes and red·65536 + green·256 + blue is the parsed value, negative values included. |
| Convertor.ColorRoundTrip | convertor/convertor.go:238-265 | For components from 0 to 255, turning the colour into a code and back gives the same three components. |
| Convertor.ToChar | convertor/convertor.go:64-73 | The empty text gives one empty string. Otherwise there is one string per character, holding that character. |
| Convertor.ToCharJoin | convertor/convertor.go:64-73 | Joining the pieces gives back the text. |
| DateUtil.LeapCycle | dateutil/time_utils.go:273-275 | Whether a year is a leap year repeats every 400 years. |
| DateUtil.LeapYearGoRem | dateutil/time_utils.go:273-275 | A year is a leap year iff, with Go's truncating `%`, it is divisible by 4 and either not by 100 or by 400. This holds for negative years too. |
| DateUtil.DaysIn | dateutil/time_utils.go:97 | A month has 28 to 31 days, and February has 29 exactly in leap years. |
| DateUtil.AddMonthSafe | dateutil/time_utils.go:84-105 | The result's month lies in 1..12, and 12·year + month grows by exactly the months added. The day is clamped to the target month's length, and the time of day is kept. A date with a positive day stays a valid date. |
| DateUtil.AddYearSafe | dateutil/time_utils.go:108-119 | The year grows by the years added and the month is kept. The day is kept, except that 29 February becomes 28 February when the target year is not a leap year. The time of day is kept, and a valid date stays valid. |
| DateUtil.AddYearBack | dateutil/time_utils.go:108-119 | Adding years and then taking them away gives back the date, except that 29 February may come back as 28 February. |
| DateUtil.BetweenSeconds | dateutil/time_utils.go:278-281 | The result is the difference of the two whole-second timestamps, so it is within one second of the true difference, and an instant is zero seconds from itself. |
| DateUtil.Min | dateutil/time_utils.go:427-437 | The result is one of the arguments and is no later than any of them. |
| DateUtil.Max | dateutil/time_utils.go:440-450 | The result is one of the arguments and is no earlier than any of them. |
| DateUtil.MaxMin | dateutil/time_utils.go:453-468 | The one-pass loop finds the same latest and earliest times as `Max` and `Min`. |
| DateUtil.Layout | dateutil/time_utils.go:12-37 | A format key has a layout iff its lower-case form is in the table, and the layout is the table's entry for that key. |
| DateUtil.LayoutIgnoresCase | dateutil/time_utils.go:159-163 | Upper-casing a format key does not change the layout found. |
| DateUtil.FormatTimeToStr | dateutil/time_utils.go:159-172 | An unknown format key gives the empty text. A known one renders the time with its layout. |
| DateUtil.FormatStrToTime | dateutil/time_utils.go:175-191 | An unknown format key gives an error. A known one parses the text with its layout. |
| Random.FillBelow | random/random.go:249-254 | Setting every bit below the highest set bit gives one less than a power of two, at least the input and less than twice it (0 stays 0). |
| Random.NearestPowerOfTwo | random/random.go:248-261 | The result lies between 1 and 2^30 (`MaximumCapacity`, line 16). A capacity of at most 0 gives 1, and a capacity above 2^30, or the least 64-bit integer whose `cap - 1` wraps, gives 2^30. |
| Random.NearestPowerOfTwoIsLeast | random/random.go:248-261 | For a capacity from 1 to 2^30, the result is the least power of two that is at least the capacity. |
| Random.SetVersion | random/random.go:318-319 | The high nibble of byte 6 becomes 4 and the top two bits of byte 8 become binary 10, as section 4.4 of RFC 4122 asks. Every other bit of the sixteen bytes is unchanged. |
| Random.HexBytes | random/random.go:321 | Each byte becomes two hex digits, high nibble first. |
| Random.HexRoundTrip | random/random.go:321 | Reading the hex digits back gives the bytes. |
| Random.UUIdV4 | random/random.go:310-322 | A failed read of the random bytes is an error. Otherwise the text is 36 characters with dashes at positions 8, 13, 18 and 23, version digit `4` at position 14 and a variant digit among `8`, `9`, `a`, `b` at position 19. |
| Random.UuidLayout | random/random.go:321 | The text is 8-4-4-4-12 lowercase hex digits separated by dashes, 36 characters in all. |
| Random.UuidVersionDigits | random/random.go:318-321 | After the version and variant bits are set, the text shows `4` as the version digit and one of `8`, `9`, `a`, `b` as the variant digit. |
| Random.UuidRoundTrip | random/random.go:318-321 | Dropping the dashes and reading the hex back gives the sixteen bytes with version and variant set. |
| JsonUtil.ReplaceAll | jsonutil/json_util.go:150-154 | Replacing every occurrence of a character by text that does not contain it leaves none of it. |
| JsonUtil.EscapeXMLOnePass | jsonutil/json_util.go:149-156 | The five replacement passes, `&` first, give the same text as escaping each character once, left to right. |
| JsonUtil.EscapeXMLIsSafe | jsonutil/json_util.go:149-156 | The escaped text holds no `<`, `>`, `"` or `'`, and every `&` in it starts one of the five predefined entities of section 4.6 of XML 1.0. |
| JsonUtil.EscapeRoundTrip | jsonutil/json_util.go:149-156 | Because `&` is escaped first, replacing the five entities by their characters gives back the input. |
| JsonUtil.Clean | jsonutil/json_util.go:170-179 | The loop keeps the length, keeps letters, digits, `_` and `-`, keeps `.` and `:` past the first position, and turns every other character into `_`. |
| JsonUtil.SanitizeXMLName | jsonutil/json_util.go:160-181 | The empty name becomes `empty`. A name starting with a digit gets the prefix `tag_` before it is cleaned. Any other name is cleaned as it is. |
| JsonUtil.SanitizeIdempotent | jsonutil/json_util.go:160-181 | Sanitising a sanitised name changes nothing. |
| JsonUtil.SanitizeKeepsLeadingDash | jsonutil/json_util.go:171-179 | As written, `-x` comes out unchanged, though no XML name starts with `-`. |
| JsonUtil.SanitizeXMLNameStrict | jsonutil/json_util.go:160-181 | Always an XML name as section 2.3 of XML 1.0 defines it, in its ASCII part. It differs from the original only in a leading `-`, and not at all where the original's result is already a name. |
| XmlUtil.KeepXmlChars | xmlutil/xmlutil.go:94-107 | The kept text is no longer than the input and holds only characters of the Char production of section 2.2 of XML 1.0. |
| XmlUtil.CleanInvalidChars | xmlutil/xmlutil.go:94-107 | The loop yields the input's allowed characters in order, and nothing else. |
| XmlUtil.KeepValid | xmlutil/xmlutil.go:94-107 | Cleaning leaves text unchanged iff every character in it is allowed. |
| XmlUtil.CleanIdempotent | xmlutil/xmlutil.go:94-107 | Cleaning twice is the same as cleaning once. |
| XmlUtil.KeepCounts | xmlutil/xmlutil.go:94-107 | Each allowed character occurs in the result exactly as often as in the input, and a disallowed one not at all. |
| XmlUtil.GetAllElements | xmlutil/xmlutil.go:174-184 | The list starts with the element itself, followed by its descendants in pre-order. |
| XmlUtil.AllInSize | xmlutil/xmlutil.go:174-184 | The walk lists each node of the tree exactly once. |
| XmlUtil.Named | xmlutil/xmlutil.go:117 | The matches keep their order, and each one has the asked-for local name. |
| XmlUtil.GetElementsByTagName | xmlutil/xmlutil.go:110-127 | The result is the strict descendants whose local name matches, in pre-order; the element itself is never included. |
| XmlUtil.FindIsNamed | xmlutil/xmlutil.go:114-123 | The recursive search finds the same list as filtering the pre-order walk of the children by name. |
| XmlUtil.FindElements | xmlutil/xmlutil.go:114-123 | Every element the recursive search collects has the requested name. |
| XmlUtil.GetElementByTagName | xmlutil/xmlutil.go:130-136 | There is no result iff no descendant matches. Otherwise the result is the first match, and it has the asked-for name. |
| XmlUtil.GetElementTextByTagName | xmlutil/xmlutil.go:139-145 | The text is empty when nothing matches, and otherwise the first match's text. |
| XmlUtil.FirstMatch | xmlutil/xmlutil.go:110-136 | With no match, no descendant has the name. Otherwise the match is the earliest descendant in pre-order that has it. |
| XmlUtil.AddChild | xmlutil/xmlutil.go:154-156 | The child is appended last, and the existing children, name, attributes and text are unchanged. |
| XmlUtil.SetAttribute | xmlutil/xmlutil.go:159-161 | The attribute is appended last, even when one of that name exists, and nothing else changes. |
| XmlUtil.GetAttribute | xmlutil/xmlutil.go:164-171 | The result is the value of the first attribute with that local name, or empty when there is none. |
| XmlUtil.SetThenGet | xmlutil/xmlutil.go:159-171 | After setting an attribute, reading it gives the new value only when no attribute of that name existed before; an earlier one shadows it. Other names read as before. |
| UrlUtil.SchemeLength | urlutil/urlutil.go:24 | A URL that starts with a scheme (the syntax of section 3.1 of RFC 3986) followed by `://` has a prefix that ends in `://` and is made of scheme characters before it. |
| UrlUtil.Backslashes | urlutil/urlutil.go:33 | Every backslash becomes `/` and nothing else changes. |
| UrlUtil.Collapse | urlutil/urlutil.go:35 | Replacing runs of slashes never lengthens the text, keeps its first and last character, and keeps the same set of characters. |
| UrlUtil.CollapseFixed | urlutil/urlutil.go:35 | Text with no two adjacent slashes is left unchanged. |
| UrlUtil.CollapseJoin | urlutil/urlutil.go:35 | A `//` between two parts collapses to the same text as a single `/` there, so slashes stay where they were and only runs shrink. |
| UrlUtil.CollapseSpec | urlutil/urlutil.go:35 | After collapsing, no two slashes are adjacent, and the text with slashes removed is unchanged. |
| UrlUtil.TrimRightSlashes | urlutil/urlutil.go:38 | The result is a prefix that does not end in `/`, and only slashes were cut. |
| UrlUtil.SplitQuery | urlutil/urlutil.go:15-19 | The two parts join back to the URL. The first has no `?`, and the second is empty or starts at the first `?`. |
| UrlUtil.SplitProtocol | urlutil/urlutil.go:24-30 | The two parts join back to the text. There is a protocol part iff the text starts with a scheme and `://`. |
| UrlUtil.CleanPath | urlutil/urlutil.go:33-39 | The cleaned path has no backslash and no `//`, and ends in `/` only if it is `/` itself. Its non-slash characters are those of the input, with backslashes counted as slashes. |
| UrlUtil.BackslashesJoin | urlutil/urlutil.go:33 | Replacing backslashes in two joined parts is the same as replacing them in each part. |
| UrlUtil.CleanPathVia | urlutil/urlutil.go:33-39 | Two paths that collapse to the same text after backslash replacement clean to the same path. |
| UrlUtil.CleanPathJoin | urlutil/urlutil.go:33-39 | A `//` between two parts of a path cleans to the same path as a single `/` there. |
| UrlUtil.CleanPathFixed | urlutil/urlutil.go:33-39 | A path with no backslash, no `//` and no trailing `/` (unless it is `/`) is already clean, and cleaning twice gives what cleaning once gives. |
| UrlUtil.Normalize | urlutil/urlutil.go:10-41 | The empty URL stays empty. Otherwise the query from the first `?` on is kept verbatim at the end. Before it come the scheme prefix, if any, and the cleaned path. The cleaned path has no backslash, no `//`, and no trailing `/` unless it is `/`. It keeps the non-slash characters of the original path in order. |
| UrlUtil.FixSlashesScheme | urlutil/urlutil.go:21-22 | A scheme, a colon and one or more slashes become the scheme followed by exactly `://`. |
| UrlUtil.NormalizeScheme | urlutil/urlutil.go:21-30 | After normalising, a URL whose scheme is followed by any number of slashes starts with `scheme://`. |
| UrlUtil.AddScheme | urlutil/urlutil.go:49-63 | The empty URL stays empty. A URL that already has a scheme is returned as it is. Any other URL comes back with a scheme. |
| UrlUtil.RemoveScheme | urlutil/urlutil.go:66-73 | One leading `scheme://` is dropped. A URL without one is returned as it is. |
| UrlUtil.AddRemoveScheme | urlutil/urlutil.go:49-73 | For a non-empty URL without a scheme, removing the added scheme gives the URL back. A URL starting with `//` loses those two slashes. |
| Formatter.SplitSign | formatter/formatter.go:20-23 | The sign is a leading `-`, and the sign followed by the rest gives back the text. |
| Formatter.IntEnd | formatter/formatter.go:24-27 | The integer part ends at the first `.`, or at the end of the text when there is none. |
| Formatter.Comma | formatter/formatter.go:14-36 | Text that does not parse as a number gives the empty text. Otherwise the result is the prefix symbol, the sign, the integer part grouped by threes, and the untouched fraction. |
| Formatter.InsertCommas | formatter/formatter.go:28-31 | The loop groups the digits before the given end by threes and leaves the rest of the text as it was. |
| Formatter.GroupCommas | formatter/formatter.go:28-31 | Grouping n digits adds (n - 1) / 3 commas. A position holds a comma iff it is not the first and its distance from the end is a multiple of four, so the commas fall every three digits counting leftwards from the decimal point. |
| Formatter.GroupDropCommas | formatter/formatter.go:28-31 | Deleting the commas from grouped digits gives back the digits. |
| Formatter.CommaDecimal | formatter/formatter.go:20-35 | For text of the form `-?digits(.digits)?`, deleting the commas from the result gives back the text. |
| StructTag.NewTag | structs/tag.go:13-19 | Name and options joined with commas give back the tag, and none of them holds a comma. |
| StructTag.NewTagName | structs/tag.go:13-19 | The name is the text before the first comma, or the whole tag when there is no comma, in which case there are no options. |
| StructTag.HasOption | structs/tag.go:22-29 | The loop finds an option iff it is one of the options. |
| StructTag.NameIsNoOption | structs/tag.go:13-29 | A tag without a comma has a name but no options, so no option is found in it. |
| StructTag.IsEmpty | structs/tag.go:32-34 | A tag is empty iff its name is empty. |
| StructTag.EmptyName | structs/tag.go:13-34 | The tag built from text is empty iff the text is empty or starts with a comma, as in `,omitempty`. |
| Retry.Jitter | retry/retry.go:187-192 | There is no jitter for a zero bound. Otherwise the jitter lies between 1 and the bound. |
| Retry.CalculateInterval | retry/retry.go:154-184 | The linear strategy always returns its interval and stays as it is. The exponential strategies multiply their interval by the base, or by 2^shifter for the shift, with 64-bit wrap-around. They return the old interval when the jitter bound is 0, and otherwise a wait above it by at most the bound. The jitter bound never changes. |
| Retry.IntervalsAt | retry/retry.go:120-132 | The i-th wait of a run is the one the strategy, in its state after i waits, asks for. |
| Retry.LinearIntervals | retry/retry.go:154-156 | A linear strategy, such as the default of lines 17-19, asks for the same interval every time and never changes. |
| Retry.GeometricAfter | retry/retry.go:166-184 | After k waits, an exponential strategy's interval is the first interval times the factor to the k-th power, wrapped to 64 bits. |
| Retry.GeometricIntervals | retry/retry.go:166-190 | With jitter bound 0, the k-th wait is interval·factor^(k−1), wrapped; with a positive bound it lies just above that, by at most the bound. For the shift strategy the factor is 2^shifter, so the wait is interval << (shifter·(k−1)). |
| Retry.ShiftPower | retry/retry.go:182 | Shifting by `shifter` i times is multiplying by 2^(shifter·i). |
| Retry.RetryWithCustomBackoff | retry/retry.go:43-51 | A nil strategy panics. Otherwise the option installs that strategy. |
| Retry.RetryWithLinearBackoff | retry/retry.go:54-64 | An interval of zero or less panics. Otherwise the option installs the linear strategy with that interval. |
| Retry.RetryWithExponentialWithJitterBackoff | retry/retry.go:67-93 | It panics iff the interval is at most zero or the jitter bound is negative. Otherwise an even base gives the shifting strategy and an odd base the multiplying one. |
| Retry.ApplyOptions | retry/retry.go:104-111 | Options are applied in order, so the last option that sets the retry count or the strategy wins, and a field no option sets keeps its default. |
| Retry.Configure | retry/retry.go:104-117 | With no options, `Retry` makes 5 attempts (the constants of lines 15-20) with the linear three-second strategy. Without a strategy option it uses that linear strategy. |
| Retry.Retry | retry/retry.go:103-139 | At most the configured number of calls is made, and every call before the last failed without cancellation. The result is success iff the last call succeeded, and cancelled iff the last call failed and the wait after it was cancelled. It is exhausted, reporting the count, iff every attempt failed and none was cancelled. One wait follows each failed call, and the waits are those the strategy computes in turn. |
| NetUtil.DefaultHttpClientConfig | netutil/http_client.go:28-36 | The defaults are a 30-second timeout, 5 retries, a 256 KiB header list, no custom transport, no proxy, a TLS configuration of their own and no default headers. |
| NetUtil.MergeFields | netutil/http_client.go:224-241 | A positive timeout, retry count or header list size, a non-empty proxy and a non-nil TLS configuration in the override replace the base's. The custom transport switch is always the override's. |
| NetUtil.MergeConfig | netutil/http_client.go:209-251 | With no override the result is the base. Otherwise the scalar fields merge as above, and the result's headers are the union of both maps, the override's value winning on a shared key. The base configuration's own header map is left as it was. |
| NetUtil.MergeConfigAsWritten | netutil/http_client.go:209-251 | The code as written computes the same merged configuration as the corrected one. |
| NetUtil.MergeIdempotent | netutil/http_client.go:209-251 | Merging the same override into the result again changes nothing. |
| NetUtil.AsWrittenSharesEmptyMap | netutil/http_client.go:210-249 | As written, the base's header map is changed iff it is an empty allocated map and the override brings headers: that map is shared with the result instead of copied. |
| NetUtil.AsWrittenWritesBase | netutil/http_client.go:210-249 | As written, an empty allocated base map ends up holding the override's `Accept` header. |
| FileUtil.FileExt | fileutil/file_utils.go:776-782 | The extension is empty iff the name has no dot. Otherwise it is a suffix of the name that starts with its only dot, the name's last one. |
| FileUtil.LinesHaveNoNewline | fileutil/file_utils.go:686-698 | No line holds a newline. |
| FileUtil.LinesJoin | fileutil/file_utils.go:686-698 | Joining the lines with newlines, plus a final newline when the buffer ends in one, gives back the buffer. |
| FileUtil.LinesAppend | fileutil/file_utils.go:686-698 | Splitting text whose first part ends in a newline splits each part on its own. |
| FileUtil.ChunkLines | fileutil/file_utils.go:685-698 | The loop yields the lines of the buffer, without a trailing empty line when it ends in a newline. |
| FileUtil.TrimLineEnd | fileutil/file_utils.go:49-51 | The result is a prefix of the data that does not end in `\r` or `\n`, and only those characters were cut. |
| FileUtil.ReadLine | fileutil/file_utils.go:45-55 | The offset grows by the number of bytes consumed. End of file is reported only when the input is used up, and otherwise at least one byte is consumed. |
| FileUtil.ReadLineTakes | fileutil/file_utils.go:45-55 | A read consumes up to and including the first newline, or everything when there is none, which is then end of file. The line is what was consumed, without its trailing `\r` and `\n` characters. |
| FileUtil.ReadAll | fileutil/file_utils.go:45-55 | Reading line by line to the end moves the offset by the length of the input. |
| FileUtil.ReadAllLines | fileutil/file_utils.go:45-55 | For input without carriage returns, reading line by line gives the same lines as splitting it in one chunk, plus one empty line when it ends in a newline. |

The comment above `padAtPosition` (strutil/string_internal.go:111) names
positions 1 and 2 the other way round from what the code does; the model
follows the code (`StrUtil.PadAtPosition`).

## Left out

- Locks, goroutines, channels and the cleanup timer's firing are left out. The cache and the sharded map are modelled as sequences of operations, each on a consistent state. The cache's timer is modelled as the deadline it is armed with.
- Floating-point inputs are left out: `Range`, `RangeWithStep`, `Max`, `Min`, `Comma` and the other generic helpers are modelled on integers or on text.
- Reflection, `gob` and `fmt` formatting are left out. `convertor.ToString` is not part of this model, so `Formatter.Comma` takes the value's text, and whether `strconv.ParseFloat` accepts it, as parameters.
- File, network and random I/O are left out: file contents, random bytes and draws, the current time and the outcome of each retried call are parameters.
- Text is modelled on single-byte characters, so byte and rune indices agree. Multi-byte UTF-8, `unicode` letter classes beyond ASCII, and invalid encodings are left out.
- Time zones, `time.LoadLocation`, and the rendering and parsing of layouts are left out. `DateUtil.FormatTimeToStr` and `DateUtil.FormatStrToTime` take them as function parameters; instants are nanosecond counts.
- The AES and DES block ciphers are left out: they are an abstract pair of functions assumed to be inverse on blocks of the right size. Only the key checks, the key folding, the padding and the block layout are modelled.
- `Random.NearestPowerOfTwo`: the or-shift cascade is modelled by its outcome on the value (`FillBelow`), not bit by bit. The 32 bits the cascade fills suffice for every value below 2^30, and any larger value ends at 2^30 anyway.
- `Random.SetVersion`: the `&^` and `|` bit operations are written as arithmetic on the byte's nibbles and top bits.
- `Retry.RetryWithCustomBackoff`: a user-defined strategy is represented by the built-in ones, since its `CalculateInterval` is code outside the library.
- `Retry.RetryWithExponentialWithJitterBackoff`: the shift count `uint64(math.Log2(float64(base)))` is a parameter, because it goes through floating point.
- `Retry.Retry`: the context is given as which failed call's wait is cancelled. The function name in the final error message, found by reflection, is left out; the result carries only the attempt count.
- `FileUtil.ReadLine`: the offset is not wrapped at 64 bits, and I/O errors other than end of file are left out.
- `NetUtil.MergeConfig`: the TLS configuration is modelled by an identity, since it is only passed along by pointer.
- `CacheMemory.Close`: requires an open cache, since closing twice panics on the closed channel.
- `MathUtil.RangeWithStep`: elements and step are modelled as `int64`; other integer widths are left out. A loop that runs long but ends, such as a negative step wrapping around from the bottom, is modelled by its output, although Go would run out of memory long before.
- `Crypto.GenerateKey`: size 0 with a non-empty key is excluded, because the code loops forever there.
- `MathUtil.Lcm`: works on unbounded integers; the 64-bit wrap-around of `a * b` is not modelled, and neither is it in `MathUtil.LCM` or `MathUtil.GCD`.
- `MapUtil.Intersect`: `reflect.DeepEqual` on values is modelled as equality.
- `Crypto.AesEcbDecrypt`: empty input returns nil, which is modelled as the empty byte sequence.
- `OrderedMaps.SortByKey`: `sort.Slice` is stood in for by the slice package's quicksort. Any sort yields a permutation sorted by `less`, but ties may come out in another order.
- `CacheMemory.GetVal`: the cache's `Get` with its type assertion on the stored value is represented by `GetVal`, which returns the value as stored.
- `Validator.IsJWT`: its own contract states only the two dots. The full condition is stated by `Validator.JwtParts` for the parts between them.
- `SliceOps.Unique`: returns a new sequence. Go builds the result in the input's backing array (`slice[:0]`, slice.go:747), so the caller's slice afterwards holds the unique elements at the front, followed by the rest of its old contents. The model says nothing about the input after the call.
- `MapUtil.GetOrSet`: a nil map is not distinguished from an empty one. Go panics when it writes an absent key into a nil map (map.go:412); the model returns the map with the key added.
- `CacheMemory.CleanupExpired`: only what one firing of the cleanup timer does is modelled. The background goroutine waits on the channel of the timer that was current when it entered `select` (memory.go:211-222). `resetCleanupTimer` stops that timer and installs a new one (memory.go:226-244), so the old channel never fires again and background cleanup stops after the first re-arm. The model treats the timer as the deadline it was last armed with and does not capture this.
- `XmlUtil.AddChild`: returns the updated element as a new value, while Go appends to `*Element` in place (xmlutil.go:154-156), so every holder of that pointer sees the change. Aliasing is not modelled.
- `XmlUtil.SetAttribute`: returns the updated element as a new value, while Go appends to `*Element` in place (xmlutil.go:159-161). Aliasing is not modelled.
- `ConcurrentMaps.Set`, `ConcurrentMaps.Get` and the other sharded-map operations identify a key with the bytes of its `%v` text, which is what the shard hash reads. Go keeps two distinct keys with equal `%v` text apart within their shard; the model merges them.
- `MathUtil.Range`: elements are modelled as `int64`. `count` is not limited to 64 bits, so the wrap of `-count` at the smallest `int64` and the panic of `make` on a negative size are not modelled.
- `SliceOps.Concat`: the panic when the total length overflows `int` (slice.go:110-112) is not modelled, since lengths are unbounded.

## Findings

| source | as written | input that shows it | evidently intended | confidence | as-written member | corrected member |
|---|---|---|---|---|---|---|
| validator/validator.go:387-408 | The single-byte test is `data[i] <= 0xff`, which every byte passes, so the two-byte branch is never reached and every byte sequence is accepted. | `[0xff, 0xff]` and `[0x81]` | Accept single bytes up to 0x7F and valid GBK lead and trail pairs, and nothing else. | high; not executed | Validator.GbkAsWrittenAcceptsAll | Validator.IsGBK |
| jsonutil/json_util.go:171-179 | `-` is kept at the first position, and XML names cannot start with `-`. | `-x` comes out as `-x` | Replace a leading `-` as `.` and `:` are replaced, so the result is always a valid XML name. | medium; not executed | JsonUtil.SanitizeKeepsLeadingDash | JsonUtil.SanitizeXMLNameStrict |
| netutil/http_client.go:210-249 | The header "deep copy" is made only for a non-empty map, so an empty but allocated base map is shared with the result and then written. | base headers `map[string]string{}`, override headers `{"Accept": "*/*"}` | Copy the base's headers whenever they are written, so the base configuration is never changed. | medium; not executed | NetUtil.AsWrittenWritesBase | NetUtil.MergeConfig |
