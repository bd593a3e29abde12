/**
  The Lomuto quicksort of `slice/slice_internal.go` and its entry points
  `Sort` and `SortBy` in `slice/slice.go`. The slice is a sequence and each
  in-place step returns the rearranged sequence; `[lo, hi]` is the closed
  index range being sorted, as in the Go code.
 */
module SliceSort {

  /** Irreflexive and transitive: enough for the quicksort to sort. Every
      strict weak order, which `SortBy` asks its callers for, is one. */
  ghost predicate StrictOrder<T(!new)>(less: (T, T) -> bool) {
    (forall a :: !less(a, a))
    && (forall a, b, c :: less(a, b) && less(b, c) ==> less(a, c))
  }

  /** No later element of `s[lo..hi]` comes strictly before an earlier one. */
  ghost predicate SortedBetween<T>(s: seq<T>, lo: int, hi: int, less: (T, T) -> bool)
    requires 0 <= lo && hi < |s|
  {
    forall i, j :: lo <= i < j <= hi ==> !less(s[j], s[i])
  }

  /** `s` and `r` agree outside `[lo, hi]`. */
  ghost predicate SameOutside<T>(s: seq<T>, r: seq<T>, lo: int, hi: int) {
    |r| == |s| && forall k :: 0 <= k < |s| && (k < lo || hi < k) ==> r[k] == s[k]
  }

  /** `r[lo..hi]` is a rearrangement of `s[lo..hi]`. */
  ghost predicate PermutedBetween<T>(s: seq<T>, r: seq<T>, lo: int, hi: int)
    requires 0 <= lo <= hi + 1 <= |s| && |r| == |s|
  {
    multiset(r[lo..hi + 1]) == multiset(s[lo..hi + 1])
  }

  /** `swap` (slice_internal.go:88-90). */
  function Swap<T>(s: seq<T>, i: int, j: int): (r: seq<T>)
    requires 0 <= i < |s| && 0 <= j < |s|
    ensures |r| == |s| && r[i] == s[j] && r[j] == s[i]
    ensures forall k :: 0 <= k < |s| && k != i && k != j ==> r[k] == s[k]
  {
    s[i := s[j]][j := s[i]]
  }

  /** A swap inside `[lo, hi]` permutes that range and nothing else. */
  lemma SwapPermutes<T>(s: seq<T>, i: int, j: int, lo: int, hi: int)
    requires 0 <= lo <= i <= hi < |s| && lo <= j <= hi
    ensures SameOutside(s, Swap(s, i, j), lo, hi)
    ensures PermutedBetween(s, Swap(s, i, j), lo, hi)
  {
    var r := Swap(s, i, j);
    var a, b := s[lo..hi + 1], r[lo..hi + 1];
    assert b == a[i - lo := a[j - lo]][j - lo := a[i - lo]];
  }

  /** `partitionAnySlice` (slice_internal.go:71-86): the last element is the
      pivot; the smaller ones are moved in front of it and it ends at `p`. */
  method Partition<T>(s: seq<T>, lo: int, hi: int, less: (T, T) -> bool) returns (r: seq<T>, p: int)
    requires 0 <= lo < hi < |s|
    ensures SameOutside(s, r, lo, hi) && PermutedBetween(s, r, lo, hi)
    ensures lo <= p <= hi && r[p] == s[hi]
    ensures forall k :: lo <= k < p ==> less(r[k], r[p])
    ensures forall k :: p < k <= hi ==> !less(r[k], r[p])
  {
    var pivot := s[hi];
    r := s;
    p := lo;
    for j := lo to hi
      invariant lo <= p <= j
      invariant SameOutside(s, r, lo, hi) && PermutedBetween(s, r, lo, hi)
      invariant r[hi] == pivot
      invariant forall k :: lo <= k < p ==> less(r[k], pivot)
      invariant forall k :: p <= k < j ==> !less(r[k], pivot)
    {
      r, p := PartitionStep(s, r, lo, hi, p, j, less);
    }
    SwapPermutes(r, p, hi, lo, hi);
    Compose(s, r, Swap(r, p, hi), lo, hi);
    r := Swap(r, p, hi);
  }

  /** One round of the loop of slice_internal.go:75-81: an element below
      the pivot is swapped to the end of the lower part. */
  method PartitionStep<T>(s: seq<T>, r: seq<T>, lo: int, hi: int, p: int, j: int, less: (T, T) -> bool)
    returns (r': seq<T>, p': int)
    requires 0 <= lo <= p <= j < hi < |s|
    requires SameOutside(s, r, lo, hi) && PermutedBetween(s, r, lo, hi)
    requires forall k :: lo <= k < p ==> less(r[k], r[hi])
    requires forall k :: p <= k < j ==> !less(r[k], r[hi])
    ensures SameOutside(s, r', lo, hi) && PermutedBetween(s, r', lo, hi)
    ensures p <= p' <= j + 1 && r'[hi] == r[hi]
    ensures forall k :: lo <= k < p' ==> less(r'[k], r[hi])
    ensures forall k :: p' <= k < j + 1 ==> !less(r'[k], r[hi])
  {
    if less(r[j], r[hi]) {
      SwapPermutes(r, p, j, lo, hi);
      Compose(s, r, Swap(r, p, j), lo, hi);
      r', p' := Swap(r, p, j), p + 1;
    } else {
      r', p' := r, p;
    }
  }

  /** Two rearrangements of `[lo, hi]` in a row are one. */
  lemma Compose<T>(s: seq<T>, r: seq<T>, t: seq<T>, lo: int, hi: int)
    requires 0 <= lo <= hi < |s|
    requires SameOutside(s, r, lo, hi) && PermutedBetween(s, r, lo, hi)
    requires SameOutside(r, t, lo, hi) && PermutedBetween(r, t, lo, hi)
    ensures SameOutside(s, t, lo, hi) && PermutedBetween(s, t, lo, hi)
  {
  }

  /** `quickSortBy` (slice_internal.go:63-69): sorts `[lo, hi]` by `less`,
      leaving the rest of the slice alone. */
  method QuickSortBy<T(!new)>(s: seq<T>, lo: int, hi: int, less: (T, T) -> bool) returns (r: seq<T>)
    requires StrictOrder(less)
    requires 0 <= lo <= hi + 1 <= |s|
    ensures SameOutside(s, r, lo, hi) && PermutedBetween(s, r, lo, hi)
    ensures SortedBetween(r, lo, hi, less)
    decreases hi - lo
  {
    r := s;
    if lo < hi {
      var p;
      r, p := Partition(s, lo, hi, less);
      ghost var r1 := r;
      r := QuickSortBy(r, lo, p - 1, less);
      ghost var r2 := r;
      r := QuickSortBy(r, p + 1, hi, less);
      Joined(s, r1, r2, r, lo, p, hi, less);
    }
  }

  /** Sorting each side of a partition sorts the whole range. */
  lemma Joined<T(!new)>(s: seq<T>, r1: seq<T>, r2: seq<T>, r3: seq<T>, lo: int, p: int, hi: int, less: (T, T) -> bool)
    requires StrictOrder(less)
    requires 0 <= lo <= p <= hi < |s|
    requires SameOutside(s, r1, lo, hi) && PermutedBetween(s, r1, lo, hi)
    requires forall k :: lo <= k < p ==> less(r1[k], r1[p])
    requires forall k :: p < k <= hi ==> !less(r1[k], r1[p])
    requires SameOutside(r1, r2, lo, p - 1) && PermutedBetween(r1, r2, lo, p - 1) && SortedBetween(r2, lo, p - 1, less)
    requires SameOutside(r2, r3, p + 1, hi) && PermutedBetween(r2, r3, p + 1, hi) && SortedBetween(r3, p + 1, hi, less)
    ensures SameOutside(s, r3, lo, hi) && PermutedBetween(s, r3, lo, hi)
    ensures SortedBetween(r3, lo, hi, less)
  {
    var pivot := r1[p];
    AllBelow(r1, r2, lo, p - 1, pivot, less);
    AllNotBelow(r2, r3, p + 1, hi, pivot, less);
    JoinedPermuted(r1, r2, r3, lo, p, hi);
    JoinedSorted(r2, r3, lo, p, hi, less);
  }

  /** The two recursive calls permute the range around the pivot. */
  lemma JoinedPermuted<T>(r1: seq<T>, r2: seq<T>, r3: seq<T>, lo: int, p: int, hi: int)
    requires 0 <= lo <= p <= hi < |r1|
    requires SameOutside(r1, r2, lo, p - 1) && PermutedBetween(r1, r2, lo, p - 1)
    requires SameOutside(r2, r3, p + 1, hi) && PermutedBetween(r2, r3, p + 1, hi)
    ensures SameOutside(r1, r3, lo, hi) && PermutedBetween(r1, r3, lo, hi)
  {
    assert r3[lo..p] == r2[lo..p];
    assert r3[lo..hi + 1] == r3[lo..p] + [r3[p]] + r3[p + 1..hi + 1];
    assert r2[lo..hi + 1] == r2[lo..p] + [r2[p]] + r2[p + 1..hi + 1];
    assert r1[lo..hi + 1] == r1[lo..p] + [r1[p]] + r1[p + 1..hi + 1];
    assert r2[p + 1..hi + 1] == r1[p + 1..hi + 1];
  }

  /** Both sides sorted, the left below the pivot and the right not below
      it: the whole range is sorted. */
  lemma JoinedSorted<T(!new)>(r2: seq<T>, r3: seq<T>, lo: int, p: int, hi: int, less: (T, T) -> bool)
    requires StrictOrder(less)
    requires 0 <= lo <= p <= hi < |r2|
    requires SameOutside(r2, r3, p + 1, hi)
    requires SortedBetween(r2, lo, p - 1, less) && SortedBetween(r3, p + 1, hi, less)
    requires forall k :: lo <= k < p ==> less(r2[k], r2[p])
    requires forall k :: p < k <= hi ==> !less(r3[k], r2[p])
    ensures SortedBetween(r3, lo, hi, less)
  {
    forall i, j | lo <= i < j <= hi
      ensures !less(r3[j], r3[i])
    {
      if j <= p - 1 {
        assert r3[i] == r2[i] && r3[j] == r2[j];
      } else if i < p {
        assert r3[i] == r2[i] && less(r2[i], r2[p]);
      }
    }
  }

  /** Rearranging a range keeps "everything in it is below `pivot`". */
  lemma AllBelow<T>(a: seq<T>, b: seq<T>, lo: int, hi: int, pivot: T, less: (T, T) -> bool)
    requires 0 <= lo <= hi + 1 <= |a| && |b| == |a| && PermutedBetween(a, b, lo, hi)
    requires forall k :: lo <= k <= hi ==> less(a[k], pivot)
    ensures forall k :: lo <= k <= hi ==> less(b[k], pivot)
  {
    forall k | lo <= k <= hi
      ensures less(b[k], pivot)
    {
      assert b[k] in multiset(b[lo..hi + 1]);
      var m :| lo <= m <= hi && a[m] == b[k];
    }
  }

  /** Rearranging a range keeps "nothing in it is below `pivot`". */
  lemma AllNotBelow<T>(a: seq<T>, b: seq<T>, lo: int, hi: int, pivot: T, less: (T, T) -> bool)
    requires 0 <= lo <= hi + 1 <= |a| && |b| == |a| && PermutedBetween(a, b, lo, hi)
    requires forall k :: lo <= k <= hi ==> !less(a[k], pivot)
    ensures forall k :: lo <= k <= hi ==> !less(b[k], pivot)
  {
    forall k | lo <= k <= hi
      ensures !less(b[k], pivot)
    {
      assert b[k] in multiset(b[lo..hi + 1]);
      var m :| lo <= m <= hi && a[m] == b[k];
    }
  }

  /** `SortBy` (slice.go:1041-1043): the whole slice by `less`. */
  method SortBy<T(!new)>(s: seq<T>, less: (T, T) -> bool) returns (r: seq<T>)
    requires StrictOrder(less)
    ensures multiset(r) == multiset(s) && |r| == |s|
    ensures forall i, j :: 0 <= i < j < |r| ==> !less(r[j], r[i])
  {
    r := QuickSortBy(s, 0, |s| - 1, less);
    assert r[0..|s|] == r && s[0..|s|] == s;
  }

  /** The comparison `partitionOrderedSlice` (slice_internal.go:40-61)
      applies: `>` for the order "desc" and `<` for anything else. */
  function OrderLess(order: string): (less: (int, int) -> bool)
    ensures StrictOrder(less)
    ensures forall a, b :: less(a, b) <==> if order == "desc" then a > b else a < b
  {
    if order == "desc" then (a: int, b: int) => a > b else (a: int, b: int) => a < b
  }

  /** `quickSort` (slice_internal.go:32-38): the ordered variant, which is
      `quickSortBy` with the comparison fixed by `order`. */
  method QuickSort(s: seq<int>, lo: int, hi: int, order: string) returns (r: seq<int>)
    requires 0 <= lo <= hi + 1 <= |s|
    ensures SameOutside(s, r, lo, hi) && PermutedBetween(s, r, lo, hi)
    ensures order == "desc" ==> forall i, j :: lo <= i < j <= hi ==> r[i] >= r[j]
    ensures order != "desc" ==> forall i, j :: lo <= i < j <= hi ==> r[i] <= r[j]
  {
    r := QuickSortBy(s, lo, hi, OrderLess(order));
  }

  /** `Sort` (slice.go:1032-1038): descending when the first optional
      argument is "desc", otherwise ascending. */
  method Sort(s: seq<int>, sortOrder: seq<string>) returns (r: seq<int>)
    ensures multiset(r) == multiset(s) && |r| == |s|
    ensures |sortOrder| > 0 && sortOrder[0] == "desc" ==> forall i, j :: 0 <= i < j < |r| ==> r[i] >= r[j]
    ensures !(|sortOrder| > 0 && sortOrder[0] == "desc") ==> forall i, j :: 0 <= i < j < |r| ==> r[i] <= r[j]
  {
    if |sortOrder| > 0 && sortOrder[0] == "desc" {
      r := QuickSort(s, 0, |s| - 1, "desc");
    } else {
      r := QuickSort(s, 0, |s| - 1, "asc");
    }
    assert r[0..|s|] == r && s[0..|s|] == s;
  }
}
