/**
  The sequence helpers of `slice/slice.go`. A Go slice is a `seq<T>`; the
  helpers that return a fresh slice are functions or methods returning a
  new sequence, and `Reverse`, which permutes its argument in place, is a
  method returning the permuted sequence.
 */
module SliceOps {
  import opened Wrappers

  /** The chunks of `ss` laid end to end. */
  ghost function Flatten<T>(ss: seq<seq<T>>): seq<T> {
    if |ss| == 0 then [] else Flatten(ss[..|ss| - 1]) + ss[|ss| - 1]
  }

  /** `r` can be obtained from `s` by deleting elements. */
  ghost predicate IsSubsequence<T>(r: seq<T>, s: seq<T>) {
    |r| == 0 || (|s| > 0 && ((r[0] == s[0] && IsSubsequence(r[1..], s[1..])) || IsSubsequence(r, s[1..])))
  }

  ghost predicate NoDuplicates<T>(s: seq<T>) {
    forall i, j :: 0 <= i < j < |s| ==> s[i] != s[j]
  }

  /** Index of the first occurrence of `x` in `s`. */
  ghost function FirstIndex<T>(s: seq<T>, x: T): (i: nat)
    requires x in s
    ensures i < |s| && s[i] == x && x !in s[..i]
  {
    if s[0] == x then 0 else 1 + FirstIndex(s[1..], x)
  }

  // ---------------------------------------------------------------- Chunk

  /** `Chunk` (slice.go:66-88): walks the input once, closing the current
      chunk whenever it has reached `size` elements. */
  method Chunk<T>(s: seq<T>, size: int) returns (r: seq<seq<T>>)
    ensures |s| == 0 || size <= 0 ==> r == []
    ensures size > 0 ==> Flatten(r) == s
    ensures forall i :: 0 <= i < |r| ==> 0 < |r[i]| <= size
    ensures forall i :: 0 <= i < |r| - 1 ==> |r[i]| == size
  {
    r := [];
    if |s| == 0 || size <= 0 {
      return;
    }
    var current: seq<T> := [];
    for i := 0 to |s|
      invariant Flatten(r) + current == s[..i]
      invariant forall k :: 0 <= k < |r| ==> |r[k]| == size
      invariant |current| <= size && (i > 0 ==> |current| > 0)
    {
      r, current := ChunkStep(r, current, s[i], size);
      assert s[..i + 1] == s[..i] + [s[i]];
    }
    assert s[..|s|] == s;
    if |current| > 0 {
      FlattenAppend(r, current);
      r := r + [current];
    }
  }

  /** One element of the `Chunk` loop: a full current chunk is closed
      first, then the element joins the current chunk. */
  method ChunkStep<T>(r: seq<seq<T>>, current: seq<T>, x: T, size: int) returns (r': seq<seq<T>>, current': seq<T>)
    requires |current| <= size && size > 0 && forall k :: 0 <= k < |r| ==> |r[k]| == size
    ensures Flatten(r') + current' == Flatten(r) + current + [x]
    ensures forall k :: 0 <= k < |r'| ==> |r'[k]| == size
    ensures 0 < |current'| <= size
  {
    if |current| == size {
      FlattenAppend(r, current);
      r' := r + [current];
      current' := [x];
      assert Flatten(r') + current' == (Flatten(r) + current) + [x];
    } else {
      r' := r;
      current' := current + [x];
      assert Flatten(r') + current' == (Flatten(r) + current) + [x];
    }
  }

  lemma FlattenAppend<T>(ss: seq<seq<T>>, c: seq<T>)
    ensures Flatten(ss + [c]) == Flatten(ss) + c
  {
    assert (ss + [c])[..|ss|] == ss;
  }

  /** Flattening distributes over joining two lists of chunks. */
  lemma {:induction false} FlattenConcat<T>(a: seq<seq<T>>, b: seq<seq<T>>)
    ensures Flatten(a + b) == Flatten(a) + Flatten(b)
    decreases |b|
  {
    if |b| > 0 {
      var init := b[..|b| - 1];
      FlattenConcat(a, init);
      assert a + b == (a + init) + [b[|b| - 1]];
      FlattenAppend(a + init, b[|b| - 1]);
      FlattenAppend(init, b[|b| - 1]);
      assert init + [b[|b| - 1]] == b;
    } else {
      assert a + b == a;
    }
  }

  // ----------------------------------------------------------- Difference

  /** `Difference` (slice.go:124-142): the elements of `s` not present in
      `compared`, in their original order and multiplicity. */
  function Difference<T(==,!new)>(s: seq<T>, compared: seq<T>): (r: seq<T>)
    ensures forall x :: multiset(r)[x] == if x in compared then 0 else multiset(s)[x]
    ensures IsSubsequence(r, s)
  {
    if |s| == 0 then []
    else
      assert s == [s[0]] + s[1..];
      var rest := Difference(s[1..], compared);
      if s[0] in compared then rest
      else
        assert ([s[0]] + rest)[1..] == rest;
        [s[0]] + rest
  }

  // ------------------------------------------------------- EqualUnordered

  /** `EqualUnordered` (slice.go:228-246): counts the first slice, then
      consumes the counts with the second. Equal as multisets. */
  method EqualUnordered<T(==)>(a: seq<T>, b: seq<T>) returns (equal: bool)
    ensures equal <==> multiset(a) == multiset(b)
  {
    if |a| != |b| {
      return false;
    }
    var seen := Tally(a);
    for i := 0 to |b|
      invariant multiset(b[..i]) <= multiset(a)
      invariant seen == multiset(a) - multiset(b[..i])
    {
      if seen[b[i]] == 0 {
        CountMissing(a, b, i, seen);
        return false;
      }
      ConsumeOne(a, b, i, seen);
      seen := seen[b[i] := seen[b[i]] - 1];
    }
    assert b[..|b|] == b;
    SubMultisetSameSize(multiset(b), multiset(a));
    return true;
  }

  /** Consuming one more element of `b` whose count is still positive
      keeps the loop's invariants. */
  lemma ConsumeOne<T>(a: seq<T>, b: seq<T>, i: nat, seen: multiset<T>)
    requires i < |b| && multiset(b[..i]) <= multiset(a) && seen == multiset(a) - multiset(b[..i])
    requires seen[b[i]] > 0
    ensures multiset(b[..i + 1]) <= multiset(a)
    ensures seen[b[i] := seen[b[i]] - 1] == multiset(a) - multiset(b[..i + 1])
  {
    assert b[..i + 1] == b[..i] + [b[i]];
  }

  /** An element of `b` whose count is used up makes `b` hold it more
      often than `a`. */
  lemma CountMissing<T>(a: seq<T>, b: seq<T>, i: nat, seen: multiset<T>)
    requires i < |b| && multiset(b[..i]) <= multiset(a) && seen == multiset(a) - multiset(b[..i])
    requires seen[b[i]] == 0
    ensures multiset(a) != multiset(b)
  {
    assert b[..i + 1] == b[..i] + [b[i]];
    CountsBound(b[..i + 1], b);
    assert multiset(b[..i + 1])[b[i]] > multiset(a)[b[i]];
  }

  /** The counting loop of `EqualUnordered`: Go's `map[T]int` of counts is
      a multiset. */
  method Tally<T(==)>(a: seq<T>) returns (seen: multiset<T>)
    ensures seen == multiset(a)
  {
    seen := multiset{};
    for i := 0 to |a|
      invariant seen == multiset(a[..i])
    {
      seen := seen[a[i] := seen[a[i]] + 1];
      assert a[..i + 1] == a[..i] + [a[i]];
    }
    assert a[..|a|] == a;
  }

  /** A prefix counts no element more often than the whole sequence. */
  lemma CountsBound<T>(p: seq<T>, s: seq<T>)
    requires p <= s
    ensures multiset(p) <= multiset(s)
  {
    assert s == p + s[|p|..];
  }

  /** A sub-multiset of the same size is the whole multiset. */
  lemma {:induction false} SubMultisetSameSize<T>(m: multiset<T>, n: multiset<T>)
    requires m <= n && |m| == |n|
    ensures m == n
  {
    if |m| > 0 {
      var x :| x in m;
      SubMultisetSameSize(m - multiset{x}, n - multiset{x});
    } else {
      assert n == multiset{};
    }
  }

  // -------------------------------------------------------------- Replace

  /** Occurrences of `x` in `s`. */
  ghost function Count<T>(s: seq<T>, x: T): nat {
    multiset(s)[x]
  }

  /** `Replace` (slice.go:524-536): a copy of `s` in which the first `n`
      occurrences of `target` become `replacement`; a negative `n` never reaches zero,
      so every occurrence is replaced. */
  function Replace<T(==)>(s: seq<T>, target: T, replacement: T, n: int): (r: seq<T>)
    ensures |r| == |s|
    ensures forall i :: 0 <= i < |s| ==>
      r[i] == if s[i] == target && (n < 0 || Count(s[..i], target) < n) then replacement else s[i]
  {
    if |s| == 0 then []
    else
      var rest := Replace(s[1..], target, replacement, if s[0] == target && n != 0 then n - 1 else n);
      var r := [if s[0] == target && n != 0 then replacement else s[0]] + rest;
      assert forall i :: 1 <= i < |s| ==> s[..i] == [s[0]] + s[1..][..i - 1];
      r
  }

  /** `ReplaceAll` (slice.go:539-541): `Replace` with `n == -1`. */
  function ReplaceAll<T(==)>(s: seq<T>, target: T, replacement: T): (r: seq<T>)
    ensures |r| == |s|
    ensures forall i :: 0 <= i < |s| ==> r[i] == if s[i] == target then replacement else s[i]
  {
    Replace(s, target, replacement, -1)
  }

  /** Replacing `target` everywhere leaves none behind when the two differ. */
  lemma ReplaceAllRemovesOld<T>(s: seq<T>, target: T, replacement: T)
    requires target != replacement
    ensures target !in ReplaceAll(s, target, replacement)
  {
    var r := ReplaceAll(s, target, replacement);
    forall i | 0 <= i < |r| ensures r[i] != target { }
  }

  // ------------------------------------------------------------- DeleteAt

  /** `DeleteAt` (slice.go:602-614). An out-of-range index drops the last
      element instead; on an empty slice that re-slicing `s[:-1]` panics. */
  function DeleteAt<T>(s: seq<T>, index: int): (r: Outcome<seq<T>>)
    ensures (index < 0 || index >= |s|) && |s| == 0 <==> r.Panic?
    ensures r.Returns? ==> |r.value| == |s| - 1
    ensures r.Returns? && 0 <= index < |s| ==>
      (forall k :: 0 <= k < index ==> r.value[k] == s[k])
      && (forall k :: index <= k < |s| - 1 ==> r.value[k] == s[k + 1])
    ensures r.Returns? && !(0 <= index < |s|) ==> forall k :: 0 <= k < |s| - 1 ==> r.value[k] == s[k]
  {
    if index < 0 || index >= |s| then
      if |s| == 0 then Panic("slice bounds out of range") else Returns(s[..|s| - 1])
    else
      Returns(s[..index] + s[index + 1..])
  }

  // ---------------------------------------------------------- Drop, DropRight

  /** `Drop` (slice.go:637-651): removes `n` elements from the front. */
  function Drop<T>(s: seq<T>, n: int): (r: seq<T>)
    ensures n >= |s| ==> r == []
    ensures n <= 0 ==> r == s
    ensures 0 <= n < |s| ==> |r| == |s| - n && s == s[..n] + r
  {
    if |s| <= n then [] else if n <= 0 then s else s[n..]
  }

  /** `DropRight` (slice.go:654-668): removes `n` elements from the back. */
  function DropRight<T>(s: seq<T>, n: int): (r: seq<T>)
    ensures n >= |s| ==> r == []
    ensures n <= 0 ==> r == s
    ensures 0 <= n < |s| ==> |r| == |s| - n && s == r + s[|s| - n..]
  {
    if |s| <= n then [] else if n <= 0 then s else s[..|s| - n]
  }

  /** Dropping `n` from the back and `|s| - n` from the front splits `s`. */
  lemma DropSplits<T>(s: seq<T>, n: int)
    requires 0 < n < |s|
    ensures DropRight(s, n) + Drop(s, |s| - n) == s
  {
  }

  // ----------------------------------------------------- InsertAt, UpdateAt

  /** The dynamically typed `value` argument of `InsertAt`: one element, a
      slice of elements, or anything else. */
  datatype Insertion<T> = One(item: T) | Many(items: seq<T>) | Other

  /** `InsertAt` (slice.go:701-724): inserts one element or a whole slice
      before `index`; an index outside `[0, len]` or a value of another
      type returns the input. */
  function InsertAt<T>(s: seq<T>, index: int, value: Insertion<T>): (r: seq<T>)
    ensures index < 0 || index > |s| || value.Other? ==> r == s
    ensures 0 <= index <= |s| && value.One? ==>
      |r| == |s| + 1 && r[index] == value.item && r[..index] == s[..index] && r[index + 1..] == s[index..]
    ensures 0 <= index <= |s| && value.Many? ==>
      |r| == |s| + |value.items| && r[..index] == s[..index]
      && r[index..index + |value.items|] == value.items && r[index + |value.items|..] == s[index..]
  {
    if index < 0 || index > |s| then s
    else
      match value
      case One(v) => s[..index] + [v] + s[index..]
      case Many(vs) => s[..index] + vs + s[index..]
      case Other => s
  }

  /** Deleting what was just inserted gives the input back. */
  lemma DeleteUndoesInsert<T>(s: seq<T>, index: int, v: T)
    requires 0 <= index <= |s|
    ensures DeleteAt(InsertAt(s, index, One(v)), index) == Returns(s)
  {
    var r := InsertAt(s, index, One(v));
    assert r[..index] + r[index + 1..] == s;
  }

  /** `UpdateAt` (slice.go:727-738): a copy with position `index` replaced;
      an out-of-range index returns the input. */
  function UpdateAt<T>(s: seq<T>, index: int, value: T): (r: seq<T>)
    ensures |r| == |s|
    ensures forall k :: 0 <= k < |s| && k != index ==> r[k] == s[k]
    ensures 0 <= index < |s| ==> r[index] == value
  {
    if index < 0 || index >= |s| then s else s[index := value]
  }

  /** Writing back the old element undoes an update. */
  lemma UpdateAtRestores<T>(s: seq<T>, index: int, value: T)
    requires 0 <= index < |s|
    ensures UpdateAt(UpdateAt(s, index, value), index, s[index]) == s
  {
  }

  // -------------------------------------------------------- Unique, Union

  /** The loop of `Unique` and `Union`: keeps each element not yet in
      `seen`, adding it to `seen`. */
  function UniqueFrom<T(==,!new)>(s: seq<T>, seen: set<T>): (r: seq<T>)
    ensures NoDuplicates(r)
    ensures forall x :: x in r <==> x in s && x !in seen
    ensures forall i, j :: 0 <= i < j < |r| ==> FirstIndex(s, r[i]) < FirstIndex(s, r[j])
  {
    if |s| == 0 then []
    else if s[0] in seen then UniqueFrom(s[1..], seen)
    else [s[0]] + UniqueFrom(s[1..], seen + {s[0]})
  }

  /** `Unique` (slice.go:741-757): the first occurrence of every element,
      in order of first occurrence. */
  function Unique<T(==,!new)>(s: seq<T>): (r: seq<T>)
    ensures NoDuplicates(r)
    ensures forall x :: x in r <==> x in s
    ensures forall i, j :: 0 <= i < j < |r| ==> FirstIndex(s, r[i]) < FirstIndex(s, r[j])
  {
    if |s| == 0 then s else UniqueFrom(s, {})
  }

  /** A duplicate-free sequence is its own `Unique`. */
  lemma {:induction false} UniqueOfDistinct<T(!new)>(s: seq<T>, seen: set<T>)
    requires NoDuplicates(s) && forall x :: x in s ==> x !in seen
    ensures UniqueFrom(s, seen) == s
  {
    if |s| > 0 {
      UniqueOfDistinct(s[1..], seen + {s[0]});
    }
  }

  /** `Union` (slice.go:842-856): the nested loops visit the elements of
      every slice in turn with one shared set, which is `Unique` of the
      concatenation. */
  function Union<T(==,!new)>(ss: seq<seq<T>>): (r: seq<T>)
    ensures NoDuplicates(r)
    ensures forall x :: x in r <==> exists i :: 0 <= i < |ss| && x in ss[i]
    ensures forall k :: 0 <= k < |r| ==> r[k] in Concat(ss)
    ensures forall i, j :: 0 <= i < j < |r| ==> FirstIndex(Concat(ss), r[i]) < FirstIndex(Concat(ss), r[j])
  {
    var all := Concat(ss);
    UniqueFrom(all, {})
  }

  /** `Concat` (slice.go:106-121): the slices copied one after another
      from the front, which is laying them end to end as `Flatten` does
      from the back; so order and repetitions are kept. */
  function Concat<T(==,!new)>(ss: seq<seq<T>>): (r: seq<T>)
    ensures r == Flatten(ss)
    ensures forall x :: x in r <==> exists i :: 0 <= i < |ss| && x in ss[i]
  {
    if |ss| == 0 then []
    else
      var rest := Concat(ss[1..]);
      assert forall i :: 1 <= i < |ss| ==> ss[i] == ss[1..][i - 1];
      FlattenFront(ss);
      ss[0] + rest
  }

  /** `Flatten` peels off its first chunk too. */
  lemma FlattenFront<T>(ss: seq<seq<T>>)
    requires |ss| > 0
    ensures Flatten(ss) == ss[0] + Flatten(ss[1..])
  {
    var head, tail := [ss[0]], ss[1..];
    assert head[..0] == [];
    assert Flatten(head) == [] + ss[0] == ss[0];
    FlattenConcat(head, tail);
    assert head + tail == ss;
  }

  // ---------------------------------------------------- Reverse, ReverseCopy

  /** `Reverse` (slice.go:934-937): swaps from both ends towards the middle. */
  method Reverse<T>(s: seq<T>) returns (r: seq<T>)
    ensures |r| == |s|
    ensures forall k :: 0 <= k < |s| ==> r[k] == s[|s| - 1 - k]
  {
    r := s;
    var i, j := 0, |s| - 1;
    while i < j
      invariant 0 <= i <= j + 1 <= |s| && i + j == |s| - 1
      invariant |r| == |s|
      invariant forall k :: 0 <= k < i || j < k < |s| ==> r[k] == s[|s| - 1 - k]
      invariant forall k :: i <= k <= j ==> r[k] == s[k]
    {
      r := r[i := r[j]][j := r[i]];
      i, j := i + 1, j - 1;
    }
  }

  /** `ReverseCopy` (slice.go:941-949): fills a fresh slice back to front. */
  method ReverseCopy<T>(s: seq<T>) returns (r: seq<T>)
    ensures |r| == |s|
    ensures forall k :: 0 <= k < |s| ==> r[k] == s[|s| - 1 - k]
  {
    r := [];
    var j := |s| - 1;
    for i := 0 to |s|
      invariant j == |s| - 1 - i && |r| == i
      invariant forall k :: 0 <= k < i ==> r[k] == s[|s| - 1 - k]
    {
      r := r + [s[j]];
      j := j - 1;
    }
  }

  /** Reversing twice gives the input back. */
  method ReverseInvolution<T>(s: seq<T>) returns (r: seq<T>)
    ensures r == s
  {
    var once := Reverse(s);
    r := ReverseCopy(once);
  }
}
