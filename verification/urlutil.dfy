/**
  URL clean-up from `urlutil/urlutil.go`: `Normalize`, `AddScheme` and
  `RemoveScheme`. The regular expressions there are anchored at the start
  and match a scheme as section 3.1 of RFC 3986 spells it (a letter, then
  letters, digits, '+', '.' and '-'); each is written out below as the
  test it performs.
 */
module UrlUtil {
  import opened Text
  import StrWords

  predicate IsSchemeChar(c: char) {
    StrWords.IsAlnum(c) || c == '+' || c == '.' || c == '-'
  }

  /** The end of the run of scheme characters that starts at `i`. Since
      ':' is no scheme character, a scheme pattern can only end there. */
  function SchemeEnd(s: string, i: nat): (k: nat)
    requires i <= |s|
    ensures i <= k <= |s|
    ensures forall j :: i <= j < k ==> IsSchemeChar(s[j])
    ensures k < |s| ==> !IsSchemeChar(s[k])
    decreases |s| - i
  {
    if i < |s| && IsSchemeChar(s[i]) then SchemeEnd(s, i + 1) else i
  }

  /** The end of the run of '/' that starts at `i`. */
  function SlashEnd(s: string, i: nat): (k: nat)
    requires i <= |s|
    ensures i <= k <= |s|
    ensures forall j :: i <= j < k ==> s[j] == '/'
    ensures k < |s| ==> s[k] != '/'
    decreases |s| - i
  {
    if i < |s| && s[i] == '/' then SlashEnd(s, i + 1) else i
  }

  predicate IsLetter(c: char) {
    StrWords.IsLower(c) || StrWords.IsUpper(c)
  }

  /** `^[a-zA-Z][a-zA-Z0-9+.-]*://` matches `s`. */
  predicate HasScheme(s: string) {
    |s| > 0 && IsLetter(s[0]) && OccursAt(s, "://", SchemeEnd(s, 1))
  }

  /** The length of the match of `^[a-zA-Z][a-zA-Z0-9+.-]*://`. */
  function SchemeLength(s: string): (n: nat)
    requires HasScheme(s)
    ensures 4 <= n <= |s| && s[n - 3] == ':' && s[n - 2] == '/' && s[n - 1] == '/'
    ensures forall j :: 1 <= j < n - 3 ==> IsSchemeChar(s[j])
  {
    SchemeEnd(s, 1) + 3
  }

  /** `^([a-zA-Z][a-zA-Z0-9+.-]*):/+` replaced by `$1://`
      (urlutil.go:21-22): one or more slashes after the scheme become
      exactly two. */
  function FixSlashes(s: string): (r: string)
  {
    if |s| > 0 && IsLetter(s[0]) then
      var k := SchemeEnd(s, 1);
      if k + 1 < |s| && s[k] == ':' && s[k + 1] == '/' then
        s[..k] + "://" + s[SlashEnd(s, k + 1)..]
      else s
    else s
  }

  /** `strings.ReplaceAll(p, "\\", "/")`. */
  function Backslashes(p: string): (r: string)
    ensures |r| == |p| && '\\' !in r
    ensures forall i :: 0 <= i < |p| ==> r[i] == if p[i] == '\\' then '/' else p[i]
  {
    if |p| == 0 then "" else [if p[0] == '\\' then '/' else p[0]] + Backslashes(p[1..])
  }

  /** `/+` replaced by `/` (urlutil.go:35): every run of slashes becomes
      one. */
  function Collapse(p: string): (r: string)
    ensures |r| <= |p|
    ensures |p| > 0 ==> |r| > 0 && r[0] == p[0] && r[|r| - 1] == p[|p| - 1]
    ensures forall c :: c in r <==> c in p
  {
    if |p| == 0 then ""
    else if |p| >= 2 && p[0] == '/' && p[1] == '/' then Collapse(p[1..])
    else
      var rest := Collapse(p[1..]);
      assert forall c :: c in p <==> c == p[0] || c in p[1..];
      [p[0]] + rest
  }

  predicate NoDoubleSlash(p: string) {
    forall i :: 0 <= i < |p| - 1 ==> !(p[i] == '/' && p[i + 1] == '/')
  }

  /** The text without its slashes. */
  function Unslashed(p: string): string {
    if |p| == 0 then "" else (if p[0] == '/' then "" else [p[0]]) + Unslashed(p[1..])
  }

  /** Collapsing leaves no two slashes side by side and drops nothing but
      slashes. */
  lemma {:induction false} CollapseSpec(p: string)
    ensures NoDoubleSlash(Collapse(p))
    ensures Unslashed(Collapse(p)) == Unslashed(p)
  {
    if |p| > 0 {
      CollapseSpec(p[1..]);
      if |p| >= 2 && p[0] == '/' && p[1] == '/' {
        assert Unslashed(p) == Unslashed(p[1..]);
      } else {
        KeepFirst(p);
      }
    }
  }

  /** Text without two adjacent slashes is left as it is. */
  lemma {:induction false} CollapseFixed(p: string)
    requires NoDoubleSlash(p)
    ensures Collapse(p) == p
  {
    if |p| > 0 {
      CollapseFixed(p[1..]);
      assert [p[0]] + p[1..] == p;
    }
  }

  /** A doubled slash anywhere collapses like a single one: together with
      `CollapseFixed`, each run of slashes becomes one slash in place. */
  lemma {:induction false} CollapseJoin(a: string, b: string)
    ensures Collapse(a + "//" + b) == Collapse(a + "/" + b)
    decreases |a|
  {
    var p, q := a + "//" + b, a + "/" + b;
    if |a| == 0 {
      assert p[1..] == q;
    } else {
      CollapseJoin(a[1..], b);
      assert p[1..] == a[1..] + "//" + b;
      assert q[1..] == a[1..] + "/" + b;
      assert p[0] == q[0] && p[1] == q[1];
    }
  }

  /** A first character that does not start a run of slashes is kept. */
  lemma KeepFirst(p: string)
    requires |p| > 0 && !(|p| >= 2 && p[0] == '/' && p[1] == '/')
    requires NoDoubleSlash(Collapse(p[1..]))
    ensures NoDoubleSlash(Collapse(p))
    ensures Unslashed(Collapse(p)) == (if p[0] == '/' then "" else [p[0]]) + Unslashed(Collapse(p[1..]))
  {
    var rest := Collapse(p[1..]);
    var r := [p[0]] + rest;
    assert Collapse(p) == r;
    assert r[1..] == rest;
    ConsNoDoubleSlash(p[0], rest);
  }

  /** A character in front of text without `//` adds none, unless it is
      a slash before a slash. */
  lemma ConsNoDoubleSlash(c: char, rest: string)
    requires NoDoubleSlash(rest) && !(c == '/' && |rest| > 0 && rest[0] == '/')
    ensures NoDoubleSlash([c] + rest)
  {
    var r := [c] + rest;
    forall i | 0 <= i < |r| - 1
      ensures !(r[i] == '/' && r[i + 1] == '/')
    {
      if i > 0 {
        assert r[i] == rest[i - 1] && r[i + 1] == rest[i];
      }
    }
  }

  /** Backslash replacement works piece by piece. */
  lemma {:induction false} BackslashesJoin(a: string, b: string)
    ensures Backslashes(a + b) == Backslashes(a) + Backslashes(b)
    decreases |a|
  {
    if |a| == 0 {
      assert a + b == b;
      assert Backslashes(a) + Backslashes(b) == Backslashes(b);
    } else {
      var ab, rest := a + b, a[1..] + b;
      assert ab[1..] == rest && ab[0] == a[0];
      var c := if a[0] == '\\' then '/' else a[0];
      assert Backslashes(ab) == [c] + Backslashes(rest);
      BackslashesJoin(a[1..], b);
      var x, y := Backslashes(a[1..]), Backslashes(b);
      assert Backslashes(a) == [c] + x;
      ConcatAssoc([c], x, y);
    }
  }

  lemma ConcatAssoc(a: string, b: string, c: string)
    ensures a + (b + c) == (a + b) + c
  {
  }

  /** `strings.TrimRight(p, "/")`: every trailing slash removed. */
  function TrimRightSlashes(p: string): (r: string)
    ensures |r| <= |p| && r == p[..|r|]
    ensures |r| > 0 ==> r[|r| - 1] != '/'
    ensures forall i :: |r| <= i < |p| ==> p[i] == '/'
  {
    if |p| > 0 && p[|p| - 1] == '/' then TrimRightSlashes(p[..|p| - 1]) else p
  }

  /** The query from the first '?' on (urlutil.go:15-19), and what comes
      before it. */
  function SplitQuery(rawURL: string): (r: (string, string))
    ensures r.0 + r.1 == rawURL && '?' !in r.0
    ensures r.1 == "" || r.1[0] == '?'
  {
    var q := CharIndex(rawURL, '?');
    if q == -1 then (rawURL, "")
    else
      assert rawURL[..q] + rawURL[q..] == rawURL;
      (rawURL[..q], rawURL[q..])
  }

  /** The scheme with its "://", when there is one, and the rest
      (urlutil.go:24-30). */
  function SplitProtocol(fixed: string): (r: (string, string))
    ensures r.0 + r.1 == fixed
    ensures r.0 == "" || HasScheme(r.0)
    ensures HasScheme(fixed) <==> r.0 != ""
  {
    if HasScheme(fixed) then
      var n := SchemeLength(fixed);
      PrefixKeepsScheme(fixed, n);
      assert fixed[..n] + fixed[n..] == fixed;
      (fixed[..n], fixed[n..])
    else ("", fixed)
  }

  /** The scheme match is a prefix of what it was found in. */
  lemma PrefixKeepsScheme(s: string, n: nat)
    requires HasScheme(s) && n == SchemeLength(s)
    ensures HasScheme(s[..n])
  {
    var t := s[..n];
    var k := SchemeEnd(s, 1);
    SchemeEndPrefix(s, t, 1);
    assert t[k..k + 3] == s[k..k + 3];
  }

  /** A prefix that reaches past a scheme run has the same run. */
  lemma {:induction false} SchemeEndPrefix(s: string, t: string, i: nat)
    requires |t| <= |s| && t == s[..|t|] && i <= |t|
    requires SchemeEnd(s, i) < |t|
    ensures SchemeEnd(t, i) == SchemeEnd(s, i)
    decreases |s| - i
  {
    assert t[i] == s[i];
    if IsSchemeChar(s[i]) {
      SchemeEndPrefix(s, t, i + 1);
    }
  }

  /** The three cleaning steps on the path (urlutil.go:33-39): no
      backslash, no run of slashes, and no trailing slash unless the path
      is "/"; nothing is lost but slashes. */
  function CleanPath(path: string): (r: string)
    ensures '\\' !in r && NoDoubleSlash(r)
    ensures |r| > 1 ==> r[|r| - 1] != '/'
    ensures Unslashed(r) == Unslashed(Backslashes(path))
  {
    var p1 := Backslashes(path);
    var p2 := Collapse(p1);
    CollapseSpec(p1);
    if |p2| > 1 && p2[|p2| - 1] == '/' then
      var p3 := TrimRightSlashes(p2);
      NoDoubleSlashPrefix(p2, |p3|);
      UnslashedTrailing(p2, |p3|);
      p3
    else p2
  }

  /** A doubled slash in the path cleans like a single one. */
  lemma CleanPathJoin(a: string, b: string)
    ensures CleanPath(a + "//" + b) == CleanPath(a + "/" + b)
  {
    var a1, b1 := Backslashes(a), Backslashes(b);
    assert Backslashes(a + "//" + b) == a1 + "//" + b1 by {
      BackslashesJoin(a + "//", b);
      BackslashesJoin(a, "//");
    }
    assert Backslashes(a + "/" + b) == a1 + "/" + b1 by {
      BackslashesJoin(a + "/", b);
      BackslashesJoin(a, "/");
    }
    CollapseJoin(a1, b1);
    CleanPathVia(a + "//" + b, a + "/" + b);
  }

  /** `CleanPath` depends only on the collapsed text. */
  lemma CleanPathVia(x: string, y: string)
    requires Collapse(Backslashes(x)) == Collapse(Backslashes(y))
    ensures CleanPath(x) == CleanPath(y)
  {
  }

  /** A path that is already clean stays as it is, so cleaning twice is
      cleaning once. */
  lemma CleanPathFixed(path: string)
    ensures '\\' !in path && NoDoubleSlash(path) && (|path| > 1 ==> path[|path| - 1] != '/')
      ==> CleanPath(path) == path
    ensures CleanPath(CleanPath(path)) == CleanPath(path)
  {
    var r := CleanPath(path);
    NoBackslashKept(r);
    CollapseFixed(r);
    if '\\' !in path && NoDoubleSlash(path) {
      NoBackslashKept(path);
      CollapseFixed(path);
    }
  }

  lemma NoBackslashKept(p: string)
    requires '\\' !in p
    ensures Backslashes(p) == p
  {
    var r := Backslashes(p);
    forall i | 0 <= i < |p|
      ensures r[i] == p[i]
    {
      assert p[i] != '\\';
    }
  }

  lemma NoDoubleSlashPrefix(p: string, n: nat)
    requires n <= |p| && NoDoubleSlash(p)
    ensures NoDoubleSlash(p[..n])
  {
    var t := p[..n];
    forall i | 0 <= i < |t| - 1
      ensures !(t[i] == '/' && t[i + 1] == '/')
    {
      assert t[i] == p[i] && t[i + 1] == p[i + 1];
    }
  }

  /** Trailing slashes carry no text. */
  lemma {:induction false} UnslashedTrailing(p: string, n: nat)
    requires n <= |p| && forall i :: n <= i < |p| ==> p[i] == '/'
    ensures Unslashed(p[..n]) == Unslashed(p)
    decreases n
  {
    if n == 0 {
      AllSlashes(p);
    } else {
      UnslashedTrailing(p[1..], n - 1);
      assert p[1..][..n - 1] == p[..n][1..];
    }
  }

  lemma {:induction false} AllSlashes(p: string)
    requires forall i :: 0 <= i < |p| ==> p[i] == '/'
    ensures Unslashed(p) == ""
  {
    if |p| > 0 {
      AllSlashes(p[1..]);
    }
  }

  /** `Normalize` (urlutil.go:10-41): "" stays ""; otherwise the scheme
      part, the cleaned path and the untouched query, in that order. The
      path loses its backslashes, runs of slashes and trailing slash, and
      nothing but slashes. */
  function Normalize(rawURL: string): (r: string)
    ensures rawURL == "" ==> r == ""
    ensures rawURL != "" ==>
      var parts := SplitProtocol(FixSlashes(SplitQuery(rawURL).0));
      var path := CleanPath(parts.1);
      && r == parts.0 + path + SplitQuery(rawURL).1
      && (parts.0 == "" || HasScheme(parts.0))
      && '\\' !in path && NoDoubleSlash(path) && (|path| > 1 ==> path[|path| - 1] != '/')
      && Unslashed(path) == Unslashed(Backslashes(parts.1))
    ensures HasSuffix(r, SplitQuery(rawURL).1)
    ensures var path := r[..|r| - |SplitQuery(rawURL).1|];
      exists k :: 0 <= k <= |path| && (k == 0 || HasScheme(path[..k]))
        && '\\' !in path[k..] && NoDoubleSlash(path[k..]) && (|path[k..]| > 1 ==> path[|path| - 1] != '/')
  {
    if rawURL == "" then ""
    else
      var (beforeQuery, query) := SplitQuery(rawURL);
      var (protocol, path) := SplitProtocol(FixSlashes(beforeQuery));
      var p := CleanPath(path);
      Assembled(protocol, p, query);
      protocol + p + query
  }

  /** The parts, put together, have the shape `Normalize` promises: a
      scheme or nothing, then a clean path, then the query. */
  lemma Assembled(protocol: string, p: string, query: string)
    requires protocol == "" || HasScheme(protocol)
    requires '\\' !in p && NoDoubleSlash(p) && (|p| > 1 ==> p[|p| - 1] != '/')
    ensures var r := protocol + p + query;
      && HasSuffix(r, query)
      && var path := r[..|r| - |query|];
      exists k :: 0 <= k <= |path| && (k == 0 || HasScheme(path[..k]))
        && '\\' !in path[k..] && NoDoubleSlash(path[k..]) && (|path[k..]| > 1 ==> path[|path| - 1] != '/')
  {
    var r := protocol + p + query;
    assert r[|r| - |query|..] == query;
    var path := r[..|r| - |query|];
    assert path == protocol + p;
    var k := |protocol|;
    assert path[..k] == protocol && path[k..] == p;
  }

  /** A scheme followed by ':' and one or more slashes becomes that scheme
      followed by exactly "://" (urlutil.go:21-22). */
  lemma FixSlashesScheme(scheme: string, slashes: nat, rest: string)
    requires |scheme| > 0 && IsLetter(scheme[0])
    requires forall j :: 0 <= j < |scheme| ==> IsSchemeChar(scheme[j])
    requires slashes >= 1 && (|rest| > 0 ==> rest[0] != '/')
    ensures FixSlashes(scheme + ":" + Slashes(slashes) + rest) == scheme + "://" + rest
  {
    var s := scheme + ":" + Slashes(slashes) + rest;
    var k := |scheme|;
    assert s[k] == ':';
    SchemeEndAt(s, 1, k);
    SlashEndAt(s, k + 1, k + 1 + slashes);
    assert s[..k] == scheme;
    assert s[k + 1 + slashes..] == rest;
  }

  /** Text that starts with a scheme and "://" splits right after it. */
  lemma SplitProtocolScheme(scheme: string, rest: string)
    requires |scheme| > 0 && IsLetter(scheme[0])
    requires forall j :: 0 <= j < |scheme| ==> IsSchemeChar(scheme[j])
    ensures SplitProtocol(scheme + "://" + rest) == (scheme + "://", rest)
  {
    var s := scheme + "://" + rest;
    var k := |scheme|;
    assert s[k] == ':';
    SchemeEndAt(s, 1, k);
    assert s[k..k + 3] == "://";
    assert s[..k + 3] == scheme + "://";
    assert s[k + 3..] == rest;
  }

  /** Without a query, a URL whose scheme is followed by ':' and any
      number of slashes comes out starting with the scheme and exactly
      "://". */
  lemma NormalizeScheme(scheme: string, slashes: nat, rest: string)
    requires |scheme| > 0 && IsLetter(scheme[0])
    requires forall j :: 0 <= j < |scheme| ==> IsSchemeChar(scheme[j])
    requires slashes >= 1 && (|rest| > 0 ==> rest[0] != '/') && '?' !in rest
    ensures HasPrefix(Normalize(scheme + ":" + Slashes(slashes) + rest), scheme + "://")
  {
    var s, front := scheme + ":" + Slashes(slashes) + rest, scheme + "://";
    var path := CleanPath(rest);
    assert Normalize(s) == front + path by {
      SchemeUrlNoQuery(scheme, slashes, rest);
      assert SplitQuery(s) == (s, "");
      FixSlashesScheme(scheme, slashes, rest);
      SplitProtocolScheme(scheme, rest);
    }
    assert (front + path)[..|front|] == front;
  }

  /** A scheme, a colon, slashes and a query-free rest hold no `?`. */
  lemma SchemeUrlNoQuery(scheme: string, slashes: nat, rest: string)
    requires forall j :: 0 <= j < |scheme| ==> IsSchemeChar(scheme[j])
    requires '?' !in rest
    ensures '?' !in scheme + ":" + Slashes(slashes) + rest
  {
    var s := scheme + ":" + Slashes(slashes) + rest;
    forall j | 0 <= j < |s|
      ensures s[j] != '?'
    {
      if j >= |scheme| + 1 + slashes {
        assert s[j] == rest[j - |scheme| - 1 - slashes];
      }
    }
  }

  /** `count` slashes. */
  function Slashes(count: nat): (r: string)
    ensures |r| == count && forall i :: 0 <= i < count ==> r[i] == '/'
  {
    if count == 0 then "" else "/" + Slashes(count - 1)
  }

  lemma {:induction false} SchemeEndAt(s: string, i: nat, k: nat)
    requires i <= k < |s| && !IsSchemeChar(s[k])
    requires forall j :: i <= j < k ==> IsSchemeChar(s[j])
    ensures SchemeEnd(s, i) == k
    decreases k - i
  {
    if i < k {
      SchemeEndAt(s, i + 1, k);
    }
  }

  lemma {:induction false} SlashEndAt(s: string, i: nat, k: nat)
    requires i <= k <= |s| && (k < |s| ==> s[k] != '/')
    requires forall j :: i <= j < k ==> s[j] == '/'
    ensures SlashEnd(s, i) == k
    decreases k - i
  {
    if i < k {
      SlashEndAt(s, i + 1, k);
    }
  }

  /** `AddScheme` (urlutil.go:49-63): "" stays "", a URL with a scheme is
      kept, a protocol-relative `//host` gets "http:", anything else
      "http://". */
  function AddScheme(rawURL: string): (r: string)
    ensures rawURL == "" ==> r == ""
    ensures rawURL != "" ==> HasScheme(r)
    ensures HasScheme(rawURL) ==> r == rawURL
  {
    if rawURL == "" then ""
    else if HasScheme(rawURL) then rawURL
    else
      var r := if HasPrefix(rawURL, "//") then "http:" + rawURL else "http://" + rawURL;
      HttpScheme(r);
      r
  }

  /** Text that starts with "http://" has the scheme "http". */
  lemma HttpScheme(r: string)
    requires HasPrefix(r, "http://") || (|r| >= 7 && r[..7] == "http://")
    ensures HasScheme(r) && SchemeLength(r) == 7
  {
    assert r[..7] == "http://";
    assert r[0] == 'h' && r[1] == 't' && r[2] == 't' && r[3] == 'p' && r[4] == ':';
    SchemeEndAt(r, 1, 4);
    assert r[4..7] == "://";
  }

  /** `RemoveScheme` (urlutil.go:66-73): one leading `scheme://` dropped;
      anything else unchanged. */
  function RemoveScheme(rawURL: string): (r: string)
    ensures !HasScheme(rawURL) ==> r == rawURL
    ensures HasScheme(rawURL) ==> r == rawURL[SchemeLength(rawURL)..]
  {
    if rawURL == "" then ""
    else if HasScheme(rawURL) then rawURL[SchemeLength(rawURL)..]
    else rawURL
  }

  /** Removing the scheme that `AddScheme` put on gives the URL back, for
      a URL that has none and does not start with "//"; a URL that does
      comes back without those two slashes. */
  lemma AddRemoveScheme(u: string)
    requires u != "" && !HasScheme(u)
    ensures !HasPrefix(u, "//") ==> RemoveScheme(AddScheme(u)) == u
    ensures HasPrefix(u, "//") ==> RemoveScheme(AddScheme(u)) == u[2..]
  {
    var r := AddScheme(u);
    if HasPrefix(u, "//") {
      assert r == "http:" + u;
      assert r[..7] == "http://" by {
        assert u[..2] == "//";
      }
      HttpScheme(r);
      assert r[7..] == u[2..];
    } else {
      assert r == "http://" + u;
      HttpScheme(r);
      assert r[7..] == u;
    }
  }
}
