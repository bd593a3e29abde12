/**
  Splitting text into words for the case converters of `strutil`
  (`strutil/string_internal.go`), on ASCII characters: `unicode.IsLetter`
  is taken to mean an ASCII letter.
 */
module StrWords {
  import opened SliceOps

  /** `isDigit` (string_internal.go:59-61). */
  predicate IsDigit(c: char) {
    '0' <= c <= '9'
  }

  /** `isLower` (string_internal.go:64-66). */
  predicate IsLower(c: char) {
    'a' <= c <= 'z'
  }

  /** `isUpper` (string_internal.go:69-71). */
  predicate IsUpper(c: char) {
    'A' <= c <= 'Z'
  }

  predicate IsAlnum(c: char) {
    IsLower(c) || IsUpper(c) || IsDigit(c)
  }

  /** `toLower` (string_internal.go:74-79): only upper-case letters move,
      to the lower-case letter 32 code points up. */
  function ToLower(c: char): (r: char)
    ensures !IsUpper(c) ==> r == c
    ensures IsUpper(c) ==> IsLower(r) && r as int - c as int == 32
  {
    if IsUpper(c) then (c as int + 32) as char else c
  }

  /** `toUpper` (string_internal.go:90-95). */
  function ToUpper(c: char): (r: char)
    ensures !IsLower(c) ==> r == c
    ensures IsLower(c) ==> IsUpper(r) && c as int - r as int == 32
  {
    if IsLower(c) then (c as int - 32) as char else c
  }

  /** The two conversions undo each other on letters and keep the class of
      every other character. */
  lemma CaseRoundTrip(c: char)
    ensures IsUpper(c) ==> ToUpper(ToLower(c)) == c
    ensures IsLower(c) ==> ToLower(ToUpper(c)) == c
    ensures IsAlnum(c) <==> IsAlnum(ToLower(c))
    ensures IsAlnum(c) <==> IsAlnum(ToUpper(c))
  {
  }

  /** `toLowerAll` / `toUpperAll` (string_internal.go:82-87, 98-103). */
  function Fold(rs: string, upper: bool): (r: string)
    ensures |r| == |rs|
    ensures forall i :: 0 <= i < |r| ==> r[i] == if upper then ToUpper(rs[i]) else ToLower(rs[i])
  {
    if |rs| == 0 then [] else Fold(rs[..|rs| - 1], upper) + [if upper then ToUpper(rs[|rs| - 1]) else ToLower(rs[|rs| - 1])]
  }

  /** The character classes of the first loop (string_internal.go:15-24). */
  function CharType(c: char): (t: int)
    ensures 1 <= t <= 4 && (t == 4 <==> !IsAlnum(c))
  {
    if IsLower(c) then 1 else if IsUpper(c) then 2 else if IsDigit(c) then 3 else 4
  }

  /** All characters of a run share one class. */
  ghost predicate SameType(run: string) {
    forall j :: 0 <= j < |run| ==> CharType(run[j]) == CharType(run[0])
  }

  /** Non-empty runs of one class each, neighbours of different classes. */
  ghost predicate Maximal(runs: seq<string>) {
    (forall i :: 0 <= i < |runs| ==> |runs[i]| > 0 && SameType(runs[i]))
    && forall i :: 0 <= i < |runs| - 1 ==> CharType(runs[i][0]) != CharType(runs[i + 1][0])
  }

  /** The first loop (string_internal.go:14-32): maximal runs of one class,
      each character joining the last run when its class did not change. */
  function Runs(s: string): (runs: seq<string>)
    ensures Flatten(runs) == s
    ensures |s| > 0 <==> |runs| > 0
    ensures Maximal(runs)
    ensures |s| > 0 ==> CharType(runs[|runs| - 1][0]) == CharType(s[|s| - 1])
  {
    if |s| == 0 then []
    else
      var init := s[..|s| - 1];
      var c := s[|s| - 1];
      var rs := Runs(init);
      assert init + [c] == s;
      if |s| > 1 && CharType(s[|s| - 2]) == CharType(c) then
        ExtendRun(rs, c);
        rs[..|rs| - 1] + [rs[|rs| - 1] + [c]]
      else
        NewRun(rs, c);
        rs + [[c]]
  }

  /** A character of the last run's class joins that run. */
  lemma ExtendRun(rs: seq<string>, c: char)
    requires Maximal(rs) && |rs| > 0 && CharType(rs[|rs| - 1][0]) == CharType(c)
    ensures var r := rs[..|rs| - 1] + [rs[|rs| - 1] + [c]];
      Maximal(r) && Flatten(r) == Flatten(rs) + [c] && CharType(r[|r| - 1][0]) == CharType(c)
  {
    var init, last := rs[..|rs| - 1], rs[|rs| - 1];
    var r := init + [last + [c]];
    FlattenAppend(init, last);
    FlattenAppend(init, last + [c]);
    assert init + [last] == rs;
    assert SameType(last + [c]) by {
      var run := last + [c];
      forall j | 0 <= j < |run|
        ensures CharType(run[j]) == CharType(run[0])
      {
        if j < |last| {
          assert run[j] == last[j];
        }
      }
    }
    assert forall i :: 0 <= i < |r| - 1 ==> r[i] == rs[i];
  }

  /** A character of another class starts a run of its own. */
  lemma NewRun(rs: seq<string>, c: char)
    requires Maximal(rs) && (|rs| == 0 || CharType(rs[|rs| - 1][0]) != CharType(c))
    ensures var r := rs + [[c]];
      Maximal(r) && Flatten(r) == Flatten(rs) + [c] && CharType(r[|r| - 1][0]) == CharType(c)
  {
    FlattenAppend(rs, [c]);
  }

  /** A run is all letters and digits or has none. */
  ghost predicate Pure(run: string) {
    (forall j :: 0 <= j < |run| ==> IsAlnum(run[j])) || (forall j :: 0 <= j < |run| ==> !IsAlnum(run[j]))
  }

  ghost predicate AllPure(runs: seq<string>) {
    forall i :: 0 <= i < |runs| ==> Pure(runs[i])
  }

  /** One round of the second loop (string_internal.go:35-40): an upper-case
      run followed by a lower-case one hands its last letter over. */
  function HandOff(runs: seq<string>, i: nat): (r: seq<string>)
    requires i + 1 < |runs| && |runs[i]| > 0 && |runs[i + 1]| > 0
    ensures |r| == |runs| && |r[i + 1]| > 0
    ensures forall j :: 0 <= j < |runs| && j != i && j != i + 1 ==> r[j] == runs[j]
    ensures IsUpper(runs[i][0]) && IsLower(runs[i + 1][0]) ==>
      r[i] == runs[i][..|runs[i]| - 1] && r[i + 1] == [runs[i][|runs[i]| - 1]] + runs[i + 1]
    ensures !(IsUpper(runs[i][0]) && IsLower(runs[i + 1][0])) ==> r == runs
  {
    if IsUpper(runs[i][0]) && IsLower(runs[i + 1][0]) then
      var length := |runs[i]| - 1;
      var temp := runs[i][length];
      runs[i + 1 := [temp] + runs[i + 1]][i := runs[i][..length]]
    else runs
  }

  /** A hand-off keeps the text and keeps every run pure. */
  lemma HandOffKeeps(runs: seq<string>, i: nat)
    requires i + 1 < |runs| && |runs[i]| > 0 && |runs[i + 1]| > 0
    requires AllPure(runs) && SameType(runs[i + 1])
    ensures Flatten(HandOff(runs, i)) == Flatten(runs)
    ensures AllPure(HandOff(runs, i))
  {
    if IsUpper(runs[i][0]) && IsLower(runs[i + 1][0]) {
      HandOffText(runs, i);
      var r := HandOff(runs, i);
      HandOffPure(runs[i], runs[i + 1]);
      assert forall j :: 0 <= j < |r| && j != i && j != i + 1 ==> r[j] == runs[j];
    }
  }

  lemma HandOffText(runs: seq<string>, i: nat)
    requires i + 1 < |runs| && |runs[i]| > 0 && |runs[i + 1]| > 0
    requires IsUpper(runs[i][0]) && IsLower(runs[i + 1][0])
    ensures Flatten(HandOff(runs, i)) == Flatten(runs)
  {
    var r := HandOff(runs, i);
    var a, b := runs[i], runs[i + 1];
    var n := |a| - 1;
    var pre, post := runs[..i], runs[i + 2..];
    MoveLast(a, b);
    SplitAround(runs, i);
    SplitAround(r, i);
    assert r[..i] == pre && r[i + 2..] == post;
    PairFlatten(pre, a, b, post);
    PairFlatten(pre, a[..n], [a[n]] + b, post);
  }

  /** The last character of `a` moved to the front of `b`. */
  lemma MoveLast(a: string, b: string)
    requires |a| > 0
    ensures a[..|a| - 1] + ([a[|a| - 1]] + b) == a + b
  {
    assert a[..|a| - 1] + [a[|a| - 1]] == a;
  }

  lemma SplitAround<T>(s: seq<T>, i: nat)
    requires i + 1 < |s|
    ensures s == s[..i] + [s[i], s[i + 1]] + s[i + 2..]
  {
    assert s[..i + 2] == s[..i] + [s[i], s[i + 1]];
    assert s == s[..i + 2] + s[i + 2..];
  }

  /** Moving the last letter of an upper-case run to the front of a
      lower-case run leaves both pure. */
  lemma HandOffPure(a: string, b: string)
    requires |a| > 0 && |b| > 0 && IsUpper(a[0]) && Pure(a) && SameType(b) && IsLower(b[0])
    ensures Pure(a[..|a| - 1]) && Pure([a[|a| - 1]] + b)
  {
    var b' := [a[|a| - 1]] + b;
    forall j | 0 <= j < |b'|
      ensures IsAlnum(b'[j])
    {
      if j > 0 {
        assert b'[j] == b[j - 1];
        assert CharType(b[j - 1]) == 1;
      }
    }
    assert forall j :: 0 <= j < |a| - 1 ==> a[..|a| - 1][j] == a[j];
  }

  lemma PairFlatten(pre: seq<string>, a: string, b: string, post: seq<string>)
    ensures Flatten(pre + [a, b] + post) == Flatten(pre) + (a + b) + Flatten(post)
  {
    FlattenConcat(pre + [a, b], post);
    assert pre + [a, b] == (pre + [a]) + [b];
    FlattenAppend(pre + [a], b);
    FlattenAppend(pre, a);
  }

  /** The second loop from round `i` on. */
  function HandOffFrom(runs: seq<string>, i: nat): (r: seq<string>)
    requires forall j :: i <= j < |runs| ==> |runs[j]| > 0
    requires forall j :: i < j < |runs| ==> SameType(runs[j])
    requires AllPure(runs)
    ensures |r| == |runs|
    ensures Flatten(r) == Flatten(runs) && AllPure(r)
    decreases |runs| - i
  {
    if i + 1 >= |runs| then runs
    else
      HandOffKeeps(runs, i);
      HandOffFrom(HandOff(runs, i), i + 1)
  }

  /** The alphanumeric characters of `s` in order, case-folded. */
  function AlnumFold(s: string, upper: bool): string {
    if |s| == 0 then []
    else AlnumFold(s[..|s| - 1], upper)
         + (if IsAlnum(s[|s| - 1]) then Fold([s[|s| - 1]], upper) else [])
  }

  lemma {:induction false} AlnumFoldAppend(a: string, b: string, upper: bool)
    ensures AlnumFold(a + b, upper) == AlnumFold(a, upper) + AlnumFold(b, upper)
    decreases |b|
  {
    if |b| > 0 {
      var init := b[..|b| - 1];
      assert (a + b)[..|a + b| - 1] == a + init;
      AlnumFoldAppend(a, init, upper);
    } else {
      assert a + b == a;
    }
  }

  /** On a pure run the fold keeps all of it or nothing. */
  lemma {:induction false} AlnumFoldPure(run: string, upper: bool)
    requires Pure(run)
    ensures (|run| > 0 && IsAlnum(run[0])) ==> AlnumFold(run, upper) == Fold(run, upper)
    ensures !(|run| > 0 && IsAlnum(run[0])) ==> AlnumFold(run, upper) == []
    decreases |run|
  {
    if |run| > 0 {
      var init := FoldPureStep(run, upper);
      AlnumFoldPure(init, upper);
    }
  }

  /** A pure run without its last character, and the folds of both. */
  lemma FoldPureStep(run: string, upper: bool) returns (init: string)
    requires Pure(run) && |run| > 0
    ensures init == run[..|run| - 1] && Pure(init)
    ensures |init| > 0 ==> (IsAlnum(init[0]) <==> IsAlnum(run[0]))
    ensures IsAlnum(run[0]) ==> Fold(run, upper) == (if |init| == 0 then [] else Fold(init, upper)) + Fold([run[|run| - 1]], upper)
    ensures IsAlnum(run[0]) ==> AlnumFold(run, upper) == (if |init| == 0 then [] else AlnumFold(init, upper)) + Fold([run[|run| - 1]], upper)
    ensures !IsAlnum(run[0]) ==> AlnumFold(run, upper) == AlnumFold(init, upper)
  {
    init := run[..|run| - 1];
    assert IsAlnum(run[0]) <==> IsAlnum(run[|run| - 1]);
  }

  /** The filter of the last loop (string_internal.go:44-53): runs that
      start with a letter or digit, case-folded. */
  function Words(runs: seq<string>, upper: bool): (words: seq<string>)
    ensures forall i :: 0 <= i < |words| ==> |words[i]| > 0
  {
    if |runs| == 0 then []
    else
      var rs := runs[|runs| - 1];
      Words(runs[..|runs| - 1], upper)
      + (if |rs| > 0 && IsAlnum(rs[0]) then [Fold(rs, upper)] else [])
  }

  /** Over pure runs, the words are the folded alphanumerics of the text. */
  lemma {:induction false} WordsText(runs: seq<string>, upper: bool)
    requires AllPure(runs)
    ensures Flatten(Words(runs, upper)) == AlnumFold(Flatten(runs), upper)
    decreases |runs|
  {
    if |runs| > 0 {
      var init, rs := runs[..|runs| - 1], runs[|runs| - 1];
      assert runs == init + [rs];
      WordsText(init, upper);
      FlattenAppend(init, rs);
      AlnumFoldAppend(Flatten(init), rs, upper);
      AlnumFoldPure(rs, upper);
      if |rs| > 0 && IsAlnum(rs[0]) {
        FlattenAppend(Words(init, upper), Fold(rs, upper));
      } else {
        assert Words(runs, upper) == Words(init, upper);
      }
    }
  }

  /** Every word of pure runs is letters and digits in the chosen case. */
  lemma {:induction false} WordsShape(runs: seq<string>, upper: bool)
    requires AllPure(runs)
    ensures forall i, j :: 0 <= i < |Words(runs, upper)| && 0 <= j < |Words(runs, upper)[i]| ==>
      var c := Words(runs, upper)[i][j];
      IsDigit(c) || (upper && IsUpper(c)) || (!upper && IsLower(c))
    decreases |runs|
  {
    if |runs| > 0 {
      var init, rs := runs[..|runs| - 1], runs[|runs| - 1];
      WordsShape(init, upper);
      if |rs| > 0 && IsAlnum(rs[0]) {
        var w := Fold(rs, upper);
        forall j | 0 <= j < |w|
          ensures IsDigit(w[j]) || (upper && IsUpper(w[j])) || (!upper && IsLower(w[j]))
        {
          assert IsAlnum(rs[j]);
        }
      }
    }
  }

  /** The runs after the second loop (string_internal.go:14-41): the
      maximal runs of one class, with every upper-case run that meets a
      lower-case one handing its last letter over. */
  function Pieces(s: string): (p: seq<string>)
    ensures |p| == |Runs(s)| && Flatten(p) == s && AllPure(p)
  {
    var runs := Runs(s);
    assert AllPure(runs) by {
      forall i | 0 <= i < |runs|
        ensures Pure(runs[i])
      {
        assert SameType(runs[i]);
      }
    }
    HandOffFrom(runs, 0)
  }

  /** Exactly the pieces that start with a letter or digit become words,
      case-folded and in order. */
  lemma {:induction false} WordsMembers(runs: seq<string>, upper: bool)
    ensures forall w :: w in Words(runs, upper) <==>
      exists i :: 0 <= i < |runs| && |runs[i]| > 0 && IsAlnum(runs[i][0]) && w == Fold(runs[i], upper)
    decreases |runs|
  {
    if |runs| > 0 {
      var init := runs[..|runs| - 1];
      WordsMembers(init, upper);
      assert forall i :: 0 <= i < |init| ==> init[i] == runs[i];
    }
  }

  /** `splitIntoStrings` (string_internal.go:8-56): the words are the
      pieces that start with a letter or digit, folded to one case. */
  function SplitIntoStrings(s: string, upperCase: bool): (words: seq<string>)
    ensures words == Words(Pieces(s), upperCase)
    ensures forall i :: 0 <= i < |words| ==> |words[i]| > 0
    ensures forall i, j :: 0 <= i < |words| && 0 <= j < |words[i]| ==>
      IsDigit(words[i][j]) || (upperCase && IsUpper(words[i][j])) || (!upperCase && IsLower(words[i][j]))
    ensures Flatten(words) == AlnumFold(s, upperCase)
  {
    var pieces := Pieces(s);
    WordsText(pieces, upperCase);
    WordsShape(pieces, upperCase);
    Words(pieces, upperCase)
  }
}
