/**
  The string helpers of `strutil/str_utils.go` and the padding helper of
  `strutil/string_internal.go`. A character stands for one byte and one
  rune at once, so the byte-indexed and the rune-indexed helpers both work
  on positions of the same sequence.
 */
module StrUtil {
  import opened Wrappers
  import opened Text
  import opened GoInt
  import SliceOps

  function Least(a: int, b: int): int {
    if a <= b then a else b
  }

  /** `s` with every NUL character removed: `strings.ReplaceAll(s, "\x00", "")`. */
  function WithoutNul(s: string): (r: string)
    ensures |r| <= |s| && '\0' !in r
    ensures '\0' !in s ==> r == s
  {
    if |s| == 0 then ""
    else if s[0] == '\0' then WithoutNul(s[1..])
    else [s[0]] + WithoutNul(s[1..])
  }

  /** Every character other than NUL survives the deletion. */
  lemma {:induction false} WithoutNulKeeps(s: string)
    ensures forall c :: c != '\0' ==> (c in WithoutNul(s) <==> c in s)
    decreases |s|
  {
    if |s| > 0 {
      WithoutNulKeeps(s[1..]);
      assert s == [s[0]] + s[1..];
    }
  }

  /** `Reverse` (str_utils.go:203-209): the runes in the opposite order. */
  method Reverse(s: string) returns (r: string)
    ensures |r| == |s|
    ensures forall k :: 0 <= k < |s| ==> r[k] == s[|s| - 1 - k]
  {
    r := SliceOps.Reverse(s);
  }

  /** Reversing twice gives the text back. */
  method ReverseTwice(s: string) returns (r: string)
    ensures r == s
  {
    var once := Reverse(s);
    r := Reverse(once);
  }

  /** `Wrap` (str_utils.go:225-235). */
  function Wrap(str: string, wrapWith: string): (r: string)
    ensures str == "" || wrapWith == "" ==> r == str
    ensures str != "" && wrapWith != "" ==>
      |r| == |str| + 2 * |wrapWith| && HasPrefix(r, wrapWith) && HasSuffix(r, wrapWith)
      && r[|wrapWith|..|r| - |wrapWith|] == str
  {
    if str == "" || wrapWith == "" then str else wrapWith + str + wrapWith
  }

  /** `Unwrap` (str_utils.go:238-246): the text between a leading and a
      trailing copy of the token, when both are there without overlapping. */
  function Unwrap(str: string, wrapToken: string): (r: string)
    ensures (wrapToken == "" || !HasPrefix(str, wrapToken) || !HasSuffix(str, wrapToken)
             || |str| < 2 * |wrapToken|) ==> r == str
    ensures wrapToken != "" && HasPrefix(str, wrapToken) && HasSuffix(str, wrapToken)
            && |str| >= 2 * |wrapToken| ==>
      wrapToken + r + wrapToken == str
  {
    if wrapToken == "" || !HasPrefix(str, wrapToken) || !HasSuffix(str, wrapToken) then str
    else if |str| < 2 * |wrapToken| then str
    else
      var r := str[|wrapToken|..|str| - |wrapToken|];
      assert wrapToken + r + wrapToken == str[..|wrapToken|] + r + str[|str| - |wrapToken|..];
      r
  }

  /** Unwrapping what was wrapped gives the text back. */
  lemma UnwrapWrap(s: string, t: string)
    ensures Unwrap(Wrap(s, t), t) == s
  {
    if s != "" && t != "" {
      var w := Wrap(s, t);
      assert w[|t|..|w| - |t|] == s;
    }
  }

  /** The pieces of the loop in `SplitEx` (str_utils.go:258-290): each
      round cuts `s` at the first separator, skipping an empty piece when
      asked to; the rest after the last separator is the final piece. */
  function Pieces(s: string, sep: string, removeEmpty: bool): (r: seq<string>)
    requires sep != ""
    ensures !removeEmpty ==> |r| >= 1 && Join(r, sep) == s
    ensures forall i :: 0 <= i < |r| ==> Index(r[i], sep) == -1
    ensures removeEmpty ==> forall i :: 0 <= i < |r| ==> r[i] != ""
    decreases |s|
  {
    var m := Index(s, sep);
    if m < 0 then
      if removeEmpty && s == "" then [] else [s]
    else
      var piece := s[..m];
      var rest := Pieces(s[m + |sep|..], sep, removeEmpty);
      FirstPieceClean(s, sep, m);
      if removeEmpty && piece == "" then rest
      else
        var r := [piece] + rest;
        assert r[1..] == rest;
        assert !removeEmpty ==> s == piece + sep + s[m + |sep|..];
        r
  }

  /** The text before the first separator holds no separator. */
  lemma FirstPieceClean(s: string, sep: string, m: int)
    requires sep != "" && 0 <= m && Index(s, sep) == m
    ensures Index(s[..m], sep) == -1
  {
    forall j | 0 <= j <= m
      ensures !OccursAt(s[..m], sep, j)
    {
      if j + |sep| <= m {
        assert s[..m][j..j + |sep|] == s[j..j + |sep|];
        assert !OccursAt(s, sep, j);
      }
    }
  }

  /** `SplitEx` (str_utils.go:249-291). */
  function SplitEx(s: string, sep: string, removeEmptyString: bool): (r: seq<string>)
    ensures sep == "" ==> r == []
    ensures sep != "" && !removeEmptyString ==> Join(r, sep) == s
    ensures sep != "" ==> forall i :: 0 <= i < |r| ==> Index(r[i], sep) == -1
    ensures removeEmptyString ==> forall i :: 0 <= i < |r| ==> r[i] != ""
  {
    if sep == "" then [] else Pieces(s, sep, removeEmptyString)
  }

  function NonEmpty(ss: seq<string>): (r: seq<string>)
    ensures forall i :: 0 <= i < |r| ==> r[i] != ""
  {
    if |ss| == 0 then [] else if ss[0] == "" then NonEmpty(ss[1..]) else [ss[0]] + NonEmpty(ss[1..])
  }

  /** Dropping empty strings is the same as splitting and then discarding
      the empty pieces. */
  lemma {:induction false} SplitExRemovesEmpty(s: string, sep: string)
    ensures SplitEx(s, sep, true) == NonEmpty(SplitEx(s, sep, false))
    decreases |s|
  {
    if sep != "" {
      var m := Index(s, sep);
      if m >= 0 {
        SplitExRemovesEmpty(s[m + |sep|..], sep);
        var full := Pieces(s, sep, false);
        assert full == [s[..m]] + Pieces(s[m + |sep|..], sep, false);
        assert full[1..] == Pieces(s[m + |sep|..], sep, false);
      }
    }
  }

  /** The runtime panic of a slice expression whose end is before its start. */
  const SliceBoundsMessage := "slice bounds out of range"

  /** `Substring` (str_utils.go:294-311) on an `int` offset and a `uint`
      length. `end := offset + int(length)` is 64-bit arithmetic: a length
      of 2^63 or more converts to a negative `int`, and a sum past
      `MaxInt64` wraps, so `rs[offset:end]` panics with the end before the
      start exactly when the start plus the length passes `MaxInt64`.
      Otherwise the result is the rune window below with its NUL
      characters deleted. */
  function Substring(s: string, offset: int, length: nat): (r: Outcome<string>)
    requires IsInt64(offset) && length < TwoTo64 && |s| <= MaxInt64
    ensures r.Panic? <==> SubstringStart(|s|, offset) <= |s| && SubstringStart(|s|, offset) + length > MaxInt64
    ensures r.Returns? ==> |r.value| <= length && '\0' !in r.value
    ensures r.Returns? ==> r.value == WithoutNul(Window(s, offset, length))
  {
    var start := SubstringStart(|s|, offset);
    if start > |s| then Returns("")
    else
      var cut := SliceEnd(|s|, start, length);
      if cut < start then Panic(SliceBoundsMessage)
      else Returns(WithoutNul(s[start..cut]))
  }

  /** `end := offset + int(length)`, cut at `size` (str_utils.go:305-308):
      the window's end while the sum fits in an `int64`, and an end before
      the start once it does not. */
  function SliceEnd(size: nat, start: nat, length: nat): (cut: int)
    requires start <= size <= MaxInt64 && length < TwoTo64
    ensures start + length <= MaxInt64 ==> cut == Least(start + length, size)
    ensures start + length > MaxInt64 ==> cut < start
  {
    var int64Length := Wrap64(length);
    WrapOnce(length);
    WrapOnce(start + int64Length);
    var end := Wrap64(start + int64Length);
    if end > size then size else end
  }

  /** The runes `Substring` slices out (str_utils.go:295-309), before the
      NUL characters go. */
  function Window(s: string, offset: int, length: nat): (w: string)
    ensures |w| <= length
  {
    var start := SubstringStart(|s|, offset);
    if start > |s| then ""
    else s[start..Least(start + length, |s|)]
  }

  /** Where the window starts: a negative offset counts from the end
      (str_utils.go:297-299) and is clamped to 0 (lines 300-302). */
  function SubstringStart(size: nat, offset: int): (start: nat)
    ensures offset >= 0 ==> start == offset
    ensures -(size as int) <= offset < 0 ==> start == size + offset
    ensures offset < -(size as int) ==> start == 0
  {
    var from := if offset < 0 then offset + size else offset;
    if from < 0 then 0 else from
  }

  /** The window `Substring` cuts: past the end it is empty; a negative
      offset counts from the end and is clamped to 0; the window is cut at
      the end of the text. */
  lemma SubstringWindow(s: string, offset: int, length: nat)
    ensures offset > |s| ==> Window(s, offset, length) == ""
    ensures 0 <= offset <= |s| ==> Window(s, offset, length) == s[offset..Least(offset + length, |s|)]
    ensures -|s| <= offset < 0 ==> Window(s, offset, length) == s[|s| + offset..Least(|s| + offset + length, |s|)]
    ensures offset < -|s| ==> Window(s, offset, length) == s[..Least(length, |s|)]
  {
    if offset < -|s| {
      assert s[0..Least(length, |s|)] == s[..Least(length, |s|)];
    }
  }

  /** Without NUL characters, the substring from any offset to the end is
      that suffix, and a negative offset is the same as counting from the
      end. */
  lemma SubstringSuffix(s: string, offset: nat)
    requires offset <= |s| <= MaxInt64 && '\0' !in s
    ensures Substring(s, offset, |s| - offset) == Returns(s[offset..])
    ensures offset > 0 ==> Substring(s, -(offset as int), offset) == Returns(s[|s| - offset..])
  {
    SuffixFrom(s, offset, offset);
    if offset > 0 {
      var back, start := -(offset as int), |s| - offset;
      assert SubstringStart(|s|, back) == start;
      SuffixFrom(s, back, start);
      assert |s| - start == offset;
    }
  }

  /** The substring from a start inside the text, running to the end. */
  lemma SuffixFrom(s: string, offset: int, start: nat)
    requires start <= |s| <= MaxInt64 && '\0' !in s && IsInt64(offset)
    requires start == SubstringStart(|s|, offset)
    ensures Substring(s, offset, |s| - start) == Returns(s[start..])
  {
    var r := Substring(s, offset, |s| - start);
    assert r.Returns?;
    WindowToEnd(s, offset, start);
    NoNulSlice(s, start);
  }

  /** A window that reaches the end is the suffix from its start. */
  lemma WindowToEnd(s: string, offset: int, start: nat)
    requires start <= |s| && start == SubstringStart(|s|, offset)
    ensures Window(s, offset, |s| - start) == s[start..]
  {
    assert Least(start + (|s| - start), |s|) == |s|;
  }

  lemma NoNulSlice(s: string, from: nat)
    requires from <= |s| && '\0' !in s
    ensures WithoutNul(s[from..]) == s[from..]
  {
    assert forall k :: 0 <= k < |s| - from ==> s[from..][k] == s[from + k];
  }

  /** `HideString` (str_utils.go:422-439): bytes `start` up to `end` (cut
      at the length) become `replaceChar` repeated once per byte. */
  function HideString(origin: string, start: int, end: int, replaceChar: string): (r: string)
    ensures start > |origin| - 1 || start < 0 || end < 0 || start > end || replaceChar == "" ==> r == origin
    ensures 0 <= start < |origin| && start <= end && replaceChar != "" ==>
      var e := Least(end, |origin|);
      var tail := |origin| - e;
      start + tail <= |r|
      && r[..start] == origin[..start]
      && r[start..|r| - tail] == Repeat(replaceChar, e - start)
      && r[|r| - tail..] == origin[e..]
  {
    var size := |origin|;
    if start > size - 1 || start < 0 || end < 0 || start > end then origin
    else
      var e := if end > size then size else end;
      if replaceChar == "" then origin
      else
        var mask := Repeat(replaceChar, e - start);
        var r := origin[0..start] + mask + origin[e..size];
        assert r[..start] == origin[..start];
        assert r[start..|r| - (size - e)] == mask;
        assert r[|r| - (size - e)..] == origin[e..];
        r
  }

  /** With a one-character mask the length is kept and exactly the hidden
      positions change. */
  lemma HideOneChar(origin: string, start: int, end: int, c: char)
    requires 0 <= start < |origin| && start <= end
    ensures var r := HideString(origin, start, end, [c]);
      |r| == |origin|
      && forall i :: 0 <= i < |r| ==> r[i] == if start <= i < Least(end, |origin|) then c else origin[i]
  {
    var r := HideString(origin, start, end, [c]);
    var e := Least(end, |origin|);
    forall i | 0 <= i < |r|
      ensures r[i] == if start <= i < e then c else origin[i]
    {
      if i < start {
        assert r[i] == r[..start][i];
      } else if i < e {
        assert r[i] == r[start..e][i - start];
      } else {
        assert r[i] == r[e..][i - e];
      }
    }
  }

  /** `Rotate` (str_utils.go:462-480): a right rotation, the rune at `j`
      coming from `j - shift` modulo the length. */
  function Rotate(str: string, shift: int): (r: string)
    ensures |r| == |str|
    ensures forall j :: 0 <= j < |r| ==> r[j] == str[(j - shift) % |str|]
  {
    if shift == 0 then str
    else if |str| == 0 then str
    else
      var length := |str|;
      var t0 := GoRem(shift, length);
      var t := if t0 < 0 then length + t0 else t0;
      GoRemAdjusted(shift, length);
      var r := str[length - t..] + str[..length - t];
      forall j | 0 <= j < length
        ensures r[j] == str[(j - shift) % length]
      {
        RotateIndex(length, t, shift, j);
      }
      r
  }

  /** Where position `j` of the rotation reads from. */
  lemma RotateIndex(n: int, t: int, shift: int, j: int)
    requires 0 <= t < n && t == shift % n && 0 <= j < n
    ensures (j - shift) % n == if j < t then n - t + j else j - t
  {
    var q := shift / n;
    if j < t {
      DivModUnique(j - shift, n, -q - 1, n - t + j);
    } else {
      DivModUnique(j - shift, n, -q, j - t);
    }
  }

  /** Rotating back by the same amount restores the text. */
  lemma RotateBack(s: string, k: int)
    ensures Rotate(Rotate(s, k), -k) == s
  {
    var r := Rotate(Rotate(s, k), -k);
    forall j | 0 <= j < |s|
      ensures r[j] == s[j]
    {
      var n := |s|;
      var i := (j + k) % n;
      RotateBackIndex(n, k, j);
    }
  }

  lemma RotateBackIndex(n: int, k: int, j: int)
    requires 0 <= j < n
    ensures (j + k) % n - k == j + n * (-((j + k) / n))
    ensures ((j + k) % n - k) % n == j
  {
    var q := (j + k) / n;
    DivModUnique((j + k) % n - k, n, -q, j);
  }

  /** `After` (str_utils.go:483-491). */
  function After(s: string, c: string): (r: string)
    ensures c == "" || Index(s, c) < 0 ==> r == s
    ensures c != "" && Index(s, c) >= 0 ==> r == s[Index(s, c) + |c|..]
  {
    if c == "" then s
    else
      var i := Index(s, c);
      if i >= 0 then s[i + |c|..] else s
  }

  /** `AfterLast` (str_utils.go:494-502). */
  function AfterLast(s: string, c: string): (r: string)
    ensures c == "" || LastIndex(s, c) < 0 ==> r == s
    ensures c != "" && LastIndex(s, c) >= 0 ==> r == s[LastIndex(s, c) + |c|..] && Index(r, c) == -1
  {
    if c == "" then s
    else
      var i := LastIndex(s, c);
      if i >= 0 then
        var r := s[i + |c|..];
        forall j | 0 <= j <= |r|
          ensures !OccursAt(r, c, j)
        {
          if j + |c| <= |r| {
            assert r[j..j + |c|] == s[i + |c| + j..i + |c| + j + |c|];
            assert !OccursAt(s, c, i + |c| + j);
          }
        }
        r
      else s
  }

  /** `Before` (str_utils.go:505-513). */
  function Before(s: string, c: string): (r: string)
    ensures c == "" || Index(s, c) < 0 ==> r == s
    ensures c != "" && Index(s, c) >= 0 ==> r == s[..Index(s, c)] && Index(r, c) == -1
  {
    if c == "" then s
    else
      var i := Index(s, c);
      if i >= 0 then FirstPieceClean(s, c, i); s[..i] else s
  }

  /** `BeforeLast` (str_utils.go:516-524). */
  function BeforeLast(s: string, c: string): (r: string)
    ensures c == "" || LastIndex(s, c) < 0 ==> r == s
    ensures c != "" && LastIndex(s, c) >= 0 ==> r == s[..LastIndex(s, c)]
  {
    if c == "" then s
    else
      var i := LastIndex(s, c);
      if i >= 0 then s[..i] else s
  }

  /** Around an occurrence the text splits into what comes before, the
      separator and what comes after, at the first and at the last
      occurrence alike; without one all four give the text back. */
  lemma BeforeAfterJoin(s: string, c: string)
    ensures c != "" && Index(s, c) >= 0 ==> Before(s, c) + c + After(s, c) == s
    ensures c != "" && LastIndex(s, c) >= 0 ==> BeforeLast(s, c) + c + AfterLast(s, c) == s
    ensures Index(s, c) < 0 ==> Before(s, c) == After(s, c) == BeforeLast(s, c) == AfterLast(s, c) == s
  {
    if c != "" && Index(s, c) >= 0 {
      JoinAround(s, c, Index(s, c));
    }
    if c != "" && LastIndex(s, c) >= 0 {
      JoinAround(s, c, LastIndex(s, c));
    }
  }

  /** The text around an occurrence of `c` at `i`. */
  lemma JoinAround(s: string, c: string, i: int)
    requires OccursAt(s, c, i)
    ensures s[..i] + c + s[i + |c|..] == s
  {
    assert s == s[..i] + s[i..i + |c|] + s[i + |c|..];
  }

  /** `IsEqualAll` (str_utils.go:532-543). */
  method IsEqualAll(strs: seq<string>) returns (equal: bool)
    ensures equal <==> forall i :: 0 <= i < |strs| ==> strs[i] == strs[0]
  {
    if |strs| == 0 {
      return true;
    }
    var first := strs[0];
    for i := 1 to |strs|
      invariant forall k :: 0 <= k < i ==> strs[k] == first
    {
      if strs[i] != first {
        return false;
      }
    }
    return true;
  }

  /** `HasPrefixAny` (str_utils.go:384-394). */
  method HasPrefixAny(str: string, prefixes: seq<string>) returns (found: bool)
    ensures found <==> |str| > 0 && exists i :: 0 <= i < |prefixes| && HasPrefix(str, prefixes[i])
  {
    if |str| == 0 || |prefixes| == 0 {
      return false;
    }
    for i := 0 to |prefixes|
      invariant forall k :: 0 <= k < i ==> !HasPrefix(str, prefixes[k])
    {
      if HasPrefix(str, prefixes[i]) {
        return true;
      }
    }
    return false;
  }

  /** Every character of `seg` is the character of `pad` repeated at its
      position: `seg` is a prefix of `pad` written out again and again. */
  ghost predicate PadSegment(seg: string, pad: string)
    requires pad != ""
  {
    forall i :: 0 <= i < |seg| ==> seg[i] == pad[i % |pad|]
  }

  /** Enough copies to cover `n`: the rounded-up quotient times the length. */
  lemma CeilCovers(n: nat, len: nat)
    requires len > 0
    ensures ((n + len - 1) / len) * len >= n
  {
    var q, m := (n + len - 1) / len, (n + len - 1) % len;
    assert n + len - 1 == q * len + m;
  }

  /** `repeatPad` (string_internal.go:141-144): the first `n` characters of
      `pad` written out enough times. */
  function RepeatPad(pad: string, n: nat): (r: string)
    requires pad != ""
    ensures |r| == n && PadSegment(r, pad)
  {
    CeilCovers(n, |pad|);
    Repeat(pad, (n + |pad| - 1) / |pad|)[..n]
  }

  /** The padding that goes to the left for a position code. */
  function LeftPad(total: nat, position: int): (left: nat)
    ensures left <= total
  {
    if position == 0 then total / 2
    else if position == 1 then total
    else 0
  }

  /** `padAtPosition` (string_internal.go:115-151). */
  function PadAtPosition(str: string, length: int, padStr: string, position: int): (r: string)
    ensures |str| >= length ==> r == str
    ensures |str| < length ==>
      var pad := if padStr == "" then " " else padStr;
      var left := LeftPad(length - |str|, position);
      |r| == length
      && r[left..left + |str|] == str
      && PadSegment(r[..left], pad)
      && PadSegment(r[left + |str|..], pad)
  {
    if |str| >= length then str
    else
      var pad := if padStr == "" then " " else padStr;
      var total := length - |str|;
      var startPad := LeftPad(total, position);
      var endPad := total - startPad;
      var leftStr := RepeatPad(pad, startPad);
      var rightStr := RepeatPad(pad, endPad);
      var r := leftStr + str + rightStr;
      assert r[..startPad] == leftStr;
      assert r[startPad..startPad + |str|] == str;
      assert r[startPad + |str|..] == rightStr;
      r
  }

  /** `Pad` (str_utils.go:162-164): centred, the odd character of padding
      going to the right, both fills cut from the pad text repeated. */
  function Pad(source: string, size: int, padStr: string): (r: string)
    ensures |source| >= size ==> r == source
    ensures |source| < size ==>
      var left := (size - |source|) / 2;
      |r| == size && r[left..left + |source|] == source
      && |r| - (left + |source|) - left in {0, 1}
      && PadSegment(r[..left], if padStr == "" then " " else padStr)
      && PadSegment(r[left + |source|..], if padStr == "" then " " else padStr)
  {
    PadAtPosition(source, size, padStr, 0)
  }

  /** `PadStart` (str_utils.go:168-170): all padding on the left. */
  function PadStart(source: string, size: int, padStr: string): (r: string)
    ensures |source| >= size ==> r == source
    ensures |source| < size ==>
      |r| == size && r[size - |source|..] == source
      && PadSegment(r[..size - |source|], if padStr == "" then " " else padStr)
  {
    PadAtPosition(source, size, padStr, 1)
  }

  /** `PadEnd` (str_utils.go:174-176): all padding on the right. */
  function PadEnd(source: string, size: int, padStr: string): (r: string)
    ensures |source| >= size ==> r == source
    ensures |source| < size ==>
      |r| == size && r[..|source|] == source
      && PadSegment(r[|source|..], if padStr == "" then " " else padStr)
  {
    PadAtPosition(source, size, padStr, 2)
  }
}
