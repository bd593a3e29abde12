/**
  The pieces of Go's `strings` package the utilities lean on, as used on
  text whose characters are single bytes: a `string` here is a sequence of
  characters, and byte offsets and character offsets coincide.
 */
module Text {
  import opened GoInt

  /** `sub` starts at offset `i` of `s`. */
  predicate OccursAt(s: string, sub: string, i: int) {
    0 <= i && i + |sub| <= |s| && s[i..i + |sub|] == sub
  }

  /** `strings.HasPrefix`. */
  predicate HasPrefix(s: string, prefix: string) {
    OccursAt(s, prefix, 0)
  }

  /** `strings.HasSuffix`. */
  predicate HasSuffix(s: string, suffix: string) {
    OccursAt(s, suffix, |s| - |suffix|)
  }

  /** `strings.TrimPrefix`: `s` without `prefix` when it starts with it. */
  function TrimPrefix(s: string, prefix: string): (r: string)
    ensures HasPrefix(s, prefix) ==> prefix + r == s
    ensures !HasPrefix(s, prefix) ==> r == s
  {
    if HasPrefix(s, prefix) then s[|prefix|..] else s
  }

  /** `strings.Index`: the first offset of `sub` in `s`, or -1. */
  function Index(s: string, sub: string): (i: int)
    ensures -1 <= i <= |s|
    ensures i == -1 <==> forall j :: 0 <= j <= |s| ==> !OccursAt(s, sub, j)
    ensures i >= 0 ==> OccursAt(s, sub, i) && forall j :: 0 <= j < i ==> !OccursAt(s, sub, j)
  {
    IndexFrom(s, sub, 0)
  }

  function IndexFrom(s: string, sub: string, from: nat): (i: int)
    requires from <= |s| + 1
    requires forall j :: 0 <= j < from ==> !OccursAt(s, sub, j)
    ensures -1 <= i <= |s|
    ensures i == -1 <==> forall j :: 0 <= j <= |s| ==> !OccursAt(s, sub, j)
    ensures i >= 0 ==> OccursAt(s, sub, i) && forall j :: 0 <= j < i ==> !OccursAt(s, sub, j)
    decreases |s| + 1 - from
  {
    if from + |sub| > |s| then -1
    else if s[from..from + |sub|] == sub then assert OccursAt(s, sub, from); from
    else IndexFrom(s, sub, from + 1)
  }

  /** `strings.LastIndex`: the last offset of `sub` in `s`, or -1. */
  function LastIndex(s: string, sub: string): (i: int)
    ensures -1 <= i <= |s|
    ensures i == -1 <==> forall j :: 0 <= j <= |s| ==> !OccursAt(s, sub, j)
    ensures i >= 0 ==> OccursAt(s, sub, i) && forall j :: i < j <= |s| ==> !OccursAt(s, sub, j)
  {
    if |sub| > |s| then -1 else LastIndexFrom(s, sub, |s| - |sub|)
  }

  function LastIndexFrom(s: string, sub: string, from: int): (i: int)
    requires -1 <= from <= |s| - |sub|
    requires forall j :: from < j <= |s| ==> !OccursAt(s, sub, j)
    ensures -1 <= i <= from
    ensures i == -1 <==> forall j :: 0 <= j <= |s| ==> !OccursAt(s, sub, j)
    ensures i >= 0 ==> OccursAt(s, sub, i) && forall j :: i < j <= |s| ==> !OccursAt(s, sub, j)
    decreases from + 1
  {
    if from < 0 then -1
    else if s[from..from + |sub|] == sub then assert OccursAt(s, sub, from); from
    else LastIndexFrom(s, sub, from - 1)
  }

  /** `strings.Repeat`: `count` copies of `s`. */
  function Repeat(s: string, count: nat): (r: string)
    ensures |r| == count * |s|
    ensures |s| > 0 ==> forall i :: 0 <= i < |r| ==> r[i] == s[i % |s|]
  {
    if count == 0 then ""
    else
      var rest := Repeat(s, count - 1);
      if |s| > 0 then RepeatShift(s, rest); s + rest else s + rest
  }

  /** Prepending one more copy keeps every character at its place modulo
      the length of `s`. */
  lemma RepeatShift(s: string, rest: string)
    requires |s| > 0
    requires forall i :: 0 <= i < |rest| ==> rest[i] == s[i % |s|]
    ensures forall i :: 0 <= i < |s + rest| ==> (s + rest)[i] == s[i % |s|]
  {
    forall i | |s| <= i < |s + rest|
      ensures (s + rest)[i] == s[i % |s|]
    {
      ModShift(i, |s|);
    }
  }

  lemma ModShift(i: int, n: int)
    requires 0 < n <= i
    ensures (i - n) % n == i % n
  {
    var q, r := i / n, i % n;
    assert i - n == (q - 1) * n + r;
    DivModUnique(i - n, n, q - 1, r);
  }

  /** `strings.Join`. */
  function Join(parts: seq<string>, sep: string): string {
    if |parts| == 0 then ""
    else if |parts| == 1 then parts[0]
    else parts[0] + sep + Join(parts[1..], sep)
  }

  /** `strings.IndexByte`: the index of the first `c`, or -1. */
  function CharIndex(s: string, c: char): (i: int)
    ensures -1 <= i < |s|
    ensures i == -1 <==> c !in s
    ensures i >= 0 ==> s[i] == c && forall j :: 0 <= j < i ==> s[j] != c
  {
    if |s| == 0 then -1
    else if s[0] == c then 0
    else
      var i := CharIndex(s[1..], c);
      assert forall j :: 1 <= j < |s| ==> s[j] == s[1..][j - 1];
      if i == -1 then -1 else i + 1
  }
}
