/**
  The two text helpers of the XML conversion in `jsonutil/json_util.go`:
  escaping the five characters XML reserves (the predefined entities of
  section 4.6 of XML 1.0) and turning a JSON key into a usable tag name.
 */
module JsonUtil {
  import opened Text
  import StrWords

  // ---------------------------------------------------------------------
  // escapeXML
  // ---------------------------------------------------------------------

  /** `strings.ReplaceAll(s, [c], rep)`: every occurrence of the single
      character `c` replaced by `rep`. */
  function ReplaceAll(s: string, c: char, rep: string): (r: string)
    ensures c !in rep ==> c !in r
  {
    if |s| == 0 then ""
    else (if s[0] == c then rep else [s[0]]) + ReplaceAll(s[1..], c, rep)
  }

  lemma {:induction false} ReplaceAllAppend(a: string, b: string, c: char, rep: string)
    ensures ReplaceAll(a + b, c, rep) == ReplaceAll(a, c, rep) + ReplaceAll(b, c, rep)
  {
    if |a| == 0 {
      assert a + b == b;
    } else {
      assert (a + b)[0] == a[0] && (a + b)[1..] == a[1..] + b;
      ReplaceAllAppend(a[1..], b, c, rep);
    }
  }

  /** `escapeXML` (json_util.go:149-156): five passes, '&' first. */
  function EscapeXML(s: string): string {
    var a := ReplaceAll(s, '&', "&amp;");
    var b := ReplaceAll(a, '<', "&lt;");
    var c := ReplaceAll(b, '>', "&gt;");
    var d := ReplaceAll(c, '"', "&quot;");
    ReplaceAll(d, '\'', "&apos;")
  }

  /** The entity for a reserved character, and the character itself for
      any other. */
  function EscapeChar(c: char): string {
    if c == '&' then "&amp;"
    else if c == '<' then "&lt;"
    else if c == '>' then "&gt;"
    else if c == '"' then "&quot;"
    else if c == '\'' then "&apos;"
    else [c]
  }

  /** Escaping one character at a time. */
  function Escape(s: string): string {
    if |s| == 0 then "" else EscapeChar(s[0]) + Escape(s[1..])
  }

  /** Since '&' goes first and no entity holds another reserved character,
      the five passes escape each character once: the same as one pass. */
  lemma {:induction false} EscapeXMLOnePass(s: string)
    ensures EscapeXML(s) == Escape(s)
  {
    if |s| > 0 {
      var h, t := [s[0]], s[1..];
      assert s == h + t;
      var a0, a1 := ReplaceAll(h, '&', "&amp;"), ReplaceAll(t, '&', "&amp;");
      ReplaceAllAppend(h, t, '&', "&amp;");
      var b0, b1 := ReplaceAll(a0, '<', "&lt;"), ReplaceAll(a1, '<', "&lt;");
      ReplaceAllAppend(a0, a1, '<', "&lt;");
      var c0, c1 := ReplaceAll(b0, '>', "&gt;"), ReplaceAll(b1, '>', "&gt;");
      ReplaceAllAppend(b0, b1, '>', "&gt;");
      var d0, d1 := ReplaceAll(c0, '"', "&quot;"), ReplaceAll(c1, '"', "&quot;");
      ReplaceAllAppend(c0, c1, '"', "&quot;");
      ReplaceAllAppend(d0, d1, '\'', "&apos;");
      EscapeXMLOnePass(t);
      EscapeOneChar(s[0]);
    }
  }

  /** The five passes on a single character give its escape. */
  lemma EscapeOneChar(c: char)
    ensures EscapeXML([c]) == EscapeChar(c)
  {
    if c == '&' {
      EscapeOneAmp();
    } else if c == '<' {
      EscapeOneLt();
    } else if c == '>' {
      EscapeOneGt();
    } else if c == '"' {
      EscapeOneQuot();
    } else if c == '\'' {
      ReplaceAllText([c], '&', "&amp;");
      ReplaceAllText([c], '<', "&lt;");
      ReplaceAllText([c], '>', "&gt;");
      ReplaceAllText([c], '"', "&quot;");
      ReplaceAllSingle(c, '\'', "&apos;");
    } else {
      ReplaceAllText([c], '&', "&amp;");
      ReplaceAllText([c], '<', "&lt;");
      ReplaceAllText([c], '>', "&gt;");
      ReplaceAllText([c], '"', "&quot;");
      ReplaceAllText([c], '\'', "&apos;");
    }
  }

  lemma EscapeOneAmp()
    ensures EscapeXML("&") == "&amp;"
  {
    ReplaceAllSingle('&', '&', "&amp;");
    PassesKeep(ReplaceAll("&", '&', "&amp;"), 1);
  }

  lemma EscapeOneLt()
    ensures EscapeXML("<") == "&lt;"
  {
    ReplaceAllText("<", '&', "&amp;");
    ReplaceAllSingle('<', '<', "&lt;");
    PassesKeep(ReplaceAll("<", '<', "&lt;"), 2);
  }

  lemma EscapeOneGt()
    ensures EscapeXML(">") == "&gt;"
  {
    ReplaceAllText(">", '&', "&amp;");
    ReplaceAllText(">", '<', "&lt;");
    ReplaceAllSingle('>', '>', "&gt;");
    PassesKeep(ReplaceAll(">", '>', "&gt;"), 3);
  }

  lemma EscapeOneQuot()
    ensures EscapeXML("\"") == "&quot;"
  {
    ReplaceAllText("\"", '&', "&amp;");
    ReplaceAllText("\"", '<', "&lt;");
    ReplaceAllText("\"", '>', "&gt;");
    ReplaceAllSingle('"', '"', "&quot;");
    PassesKeep(ReplaceAll("\"", '"', "&quot;"), 4);
  }

  /** The passes from the `from`-th on leave text alone that holds none of
      their characters. */
  lemma PassesKeep(x: string, from: nat)
    requires 1 <= from <= 4
    requires '\'' !in x && (from <= 3 ==> '"' !in x) && (from <= 2 ==> '>' !in x) && (from <= 1 ==> '<' !in x)
    ensures from == 1 ==> ReplaceAll(ReplaceAll(ReplaceAll(ReplaceAll(x, '<', "&lt;"), '>', "&gt;"), '"', "&quot;"), '\'', "&apos;") == x
    ensures from == 2 ==> ReplaceAll(ReplaceAll(ReplaceAll(x, '>', "&gt;"), '"', "&quot;"), '\'', "&apos;") == x
    ensures from == 3 ==> ReplaceAll(ReplaceAll(x, '"', "&quot;"), '\'', "&apos;") == x
    ensures from == 4 ==> ReplaceAll(x, '\'', "&apos;") == x
  {
    if from <= 1 {
      ReplaceAllText(x, '<', "&lt;");
    }
    if from <= 2 {
      ReplaceAllText(x, '>', "&gt;");
    }
    if from <= 3 {
      ReplaceAllText(x, '"', "&quot;");
    }
    ReplaceAllText(x, '\'', "&apos;");
  }

  /** Text without the character is left alone. */
  lemma {:induction false} ReplaceAllText(s: string, c: char, rep: string)
    requires c !in s
    ensures ReplaceAll(s, c, rep) == s
  {
    if |s| > 0 {
      ReplaceAllText(s[1..], c, rep);
      assert s == [s[0]] + s[1..];
    }
  }

  lemma ReplaceAllSingle(d: char, c: char, rep: string)
    ensures ReplaceAll([d], c, rep) == if d == c then rep else [d]
  {
    assert [d][1..] == "";
  }

  /** One of the five predefined entities starts at `i`. */
  predicate EntityAt(r: string, i: nat)
    requires i <= |r|
  {
    HasPrefix(r[i..], "&amp;") || HasPrefix(r[i..], "&lt;") || HasPrefix(r[i..], "&gt;")
    || HasPrefix(r[i..], "&quot;") || HasPrefix(r[i..], "&apos;")
  }

  /** Escaped text holds none of the four delimiters. */
  lemma {:induction false} EscapeNoDelimiters(s: string)
    ensures var r := Escape(s); '<' !in r && '>' !in r && '"' !in r && '\'' !in r
  {
    if |s| > 0 {
      EscapeNoDelimiters(s[1..]);
      EscapeCharClean(s[0]);
      assert Escape(s) == EscapeChar(s[0]) + Escape(s[1..]);
    }
  }

  /** The escape of one character holds none of the four delimiters. */
  lemma EscapeCharClean(c: char)
    ensures var e := EscapeChar(c); '<' !in e && '>' !in e && '"' !in e && '\'' !in e
  {
  }

  /** Each '&' starts one of the five entities. */
  predicate AmpsAreEntities(r: string) {
    forall i :: 0 <= i < |r| && r[i] == '&' ==> EntityAt(r, i)
  }

  /** Each '&' in escaped text starts one of the five entities. */
  lemma {:induction false} EscapeEntities(s: string)
    ensures AmpsAreEntities(Escape(s))
  {
    if |s| > 0 {
      EscapeEntities(s[1..]);
      EntityFront(s[0], Escape(s[1..]));
      AmpsJoin(EscapeChar(s[0]), Escape(s[1..]));
    }
  }

  /** Joining a front whose '&'s start entities to a back whose '&'s do
      gives a text whose '&'s all do. */
  lemma AmpsJoin(e: string, rest: string)
    requires AmpsAreEntities(rest)
    requires forall i :: 0 <= i < |e| && (e + rest)[i] == '&' ==> EntityAt(e + rest, i)
    ensures AmpsAreEntities(e + rest)
  {
    var r := e + rest;
    forall i | 0 <= i < |r| && r[i] == '&'
      ensures EntityAt(r, i)
    {
      if i >= |e| {
        var j := i - |e|;
        assert rest[j] == '&';
        EntityShift(e, rest, j);
      }
    }
  }

  /** An entity in the back of a text is still one after a front is
      added. */
  lemma EntityShift(e: string, rest: string, j: nat)
    requires j <= |rest| && EntityAt(rest, j)
    ensures EntityAt(e + rest, |e| + j)
  {
    assert (e + rest)[|e| + j..] == rest[j..];
  }

  /** Within the escape of one character, '&' only comes first, and there
      it starts an entity. */
  lemma EntityFront(c: char, rest: string)
    ensures var e := EscapeChar(c); var r := e + rest;
      forall i :: 0 <= i < |e| && r[i] == '&' ==> i == 0 && EntityAt(r, 0)
  {
    var e := EscapeChar(c);
    var r := e + rest;
    assert r[..|e|] == e;
  }

  /** What `escapeXML` writes is safe in XML text and attribute values. */
  lemma EscapeXMLIsSafe(s: string)
    ensures var r := EscapeXML(s);
      '<' !in r && '>' !in r && '"' !in r && '\'' !in r
      && AmpsAreEntities(r)
  {
    EscapeXMLOnePass(s);
    EscapeNoDelimiters(s);
    EscapeEntities(s);
  }

  /** Reading the five entities back. */
  function Unescape(r: string): string
    decreases |r|
  {
    if |r| == 0 then ""
    else if HasPrefix(r, "&amp;") then "&" + Unescape(r[5..])
    else if HasPrefix(r, "&lt;") then "<" + Unescape(r[4..])
    else if HasPrefix(r, "&gt;") then ">" + Unescape(r[4..])
    else if HasPrefix(r, "&quot;") then "\"" + Unescape(r[6..])
    else if HasPrefix(r, "&apos;") then "'" + Unescape(r[6..])
    else [r[0]] + Unescape(r[1..])
  }

  /** Unescaping what `escapeXML` writes gives the text back. */
  lemma {:induction false} EscapeRoundTrip(s: string)
    ensures Unescape(EscapeXML(s)) == s
  {
    EscapeXMLOnePass(s);
    UnescapeEscape(s);
  }

  lemma {:induction false} UnescapeEscape(s: string)
    ensures Unescape(Escape(s)) == s
  {
    if |s| > 0 {
      UnescapeEscape(s[1..]);
      UnescapeStep(s[0], Escape(s[1..]));
      assert s == [s[0]] + s[1..];
    }
  }

  /** The entity of one character reads back as that character. */
  lemma UnescapeStep(c: char, rest: string)
    ensures Unescape(EscapeChar(c) + rest) == [c] + Unescape(rest)
  {
    if c == '&' {
      UnescapeAmp(rest);
    } else if c == '<' {
      UnescapeLt(rest);
    } else if c == '>' {
      UnescapeGt(rest);
    } else if c == '"' {
      UnescapeQuot(rest);
    } else if c == '\'' {
      UnescapeApos(rest);
    } else {
      UnescapePlain(c, rest);
    }
  }

  lemma UnescapePlain(c: char, rest: string)
    requires c != '&'
    ensures Unescape([c] + rest) == [c] + Unescape(rest)
  {
    var r := [c] + rest;
    assert r[0] == c && r[1..] == rest;
    assert !HasPrefix(r, "&amp;") && !HasPrefix(r, "&lt;") && !HasPrefix(r, "&gt;") by {
      if |r| >= 4 {
        assert r[..4][0] == c;
      }
    }
    assert !HasPrefix(r, "&quot;") && !HasPrefix(r, "&apos;") by {
      if |r| >= 6 {
        assert r[..6][0] == c;
      }
    }
  }

  lemma UnescapeAmp(rest: string)
    ensures Unescape("&amp;" + rest) == "&" + Unescape(rest)
  {
    var r := "&amp;" + rest;
    assert r[..5] == "&amp;" && r[5..] == rest;
  }

  lemma UnescapeLt(rest: string)
    ensures Unescape("&lt;" + rest) == "<" + Unescape(rest)
  {
    var r := "&lt;" + rest;
    assert r[1] == 'l';
    assert r[..4] == "&lt;" && r[4..] == rest;
  }

  lemma UnescapeGt(rest: string)
    ensures Unescape("&gt;" + rest) == ">" + Unescape(rest)
  {
    var r := "&gt;" + rest;
    assert r[1] == 'g';
    assert r[..4] == "&gt;" && r[4..] == rest;
  }

  lemma UnescapeQuot(rest: string)
    ensures Unescape("&quot;" + rest) == "\"" + Unescape(rest)
  {
    var r := "&quot;" + rest;
    assert r[1] == 'q';
    assert r[..6] == "&quot;" && r[6..] == rest;
  }

  lemma UnescapeApos(rest: string)
    ensures Unescape("&apos;" + rest) == "'" + Unescape(rest)
  {
    var r := "&apos;" + rest;
    assert r[1] == 'a' && r[2] == 'p';
    assert r[..6] == "&apos;" && r[6..] == rest;
  }

  // ---------------------------------------------------------------------
  // sanitizeXMLName
  // ---------------------------------------------------------------------

  /** The characters `sanitizeXMLName` keeps; '.' and ':' not in front. */
  predicate KeptChar(c: char, first: bool) {
    StrWords.IsAlnum(c) || c == '_' || c == '-' || (!first && (c == '.' || c == ':'))
  }

  /** The loop of json_util.go:171-179 over `name`. */
  function Clean(name: string, first: bool): (r: string)
    ensures |r| == |name|
    ensures forall i :: 0 <= i < |name| ==>
      r[i] == if KeptChar(name[i], first && i == 0) then name[i] else '_'
  {
    if |name| == 0 then ""
    else
      var c := if KeptChar(name[0], first) then name[0] else '_';
      [c] + Clean(name[1..], false)
  }

  /** `sanitizeXMLName` (json_util.go:160-181): "empty" for "", "tag_" in
      front of a leading digit, and '_' for every other character it does
      not keep. */
  function SanitizeXMLName(name: string): (r: string)
    ensures name == "" ==> r == "empty"
    ensures name != "" && StrWords.IsDigit(name[0]) ==> r == "tag_" + Clean(name, false)
    ensures name != "" && !StrWords.IsDigit(name[0]) ==> r == Clean(name, true)
  {
    if name == "" then "empty"
    else
      var n := if StrWords.IsDigit(name[0]) then "tag_" + name else name;
      assert StrWords.IsDigit(name[0]) ==> Clean(n, true) == "tag_" + Clean(name, false) by {
        if StrWords.IsDigit(name[0]) {
          CleanAppend("tag_", name);
        }
      }
      Clean(n, true)
  }

  lemma CleanAppend(p: string, name: string)
    requires |p| > 0 && forall i :: 0 <= i < |p| ==> KeptChar(p[i], i == 0)
    ensures Clean(p + name, true) == p + Clean(name, false)
  {
    var a, b := Clean(p + name, true), p + Clean(name, false);
    assert |a| == |b|;
    forall i | 0 <= i < |a|
      ensures a[i] == b[i]
    {
      if i >= |p| {
        assert (p + name)[i] == name[i - |p|];
      }
    }
  }

  /** Names that start like an XML name and continue with name characters
      (the ASCII part of the Name production, section 2.3 of XML 1.0). */
  predicate IsXmlName(r: string) {
    |r| > 0 && (StrWords.IsLower(r[0]) || StrWords.IsUpper(r[0]) || r[0] == '_' || r[0] == ':')
    && forall i :: 0 <= i < |r| ==> KeptChar(r[i], false)
  }

  /** Output is already clean: sanitising it again changes nothing. */
  lemma SanitizeIdempotent(name: string)
    ensures SanitizeXMLName(SanitizeXMLName(name)) == SanitizeXMLName(name)
  {
    var r := SanitizeXMLName(name);
    assert !StrWords.IsDigit(r[0]);
    var r2 := SanitizeXMLName(r);
    assert |r2| == |r|;
    forall i | 0 <= i < |r|
      ensures r2[i] == r[i]
    {
    }
  }

  /** As written, a leading '-' is kept, and no XML name starts with '-'. */
  lemma SanitizeKeepsLeadingDash()
    ensures SanitizeXMLName("-x") == "-x" && !IsXmlName("-x")
  {
    assert Clean("-x", true)[0] == '-';
    assert Clean("-x", true)[1] == 'x';
  }

  /** `sanitizeXMLName` with '-' treated like '.' and ':': replaced when it
      comes first. Its output is always an XML name. */
  function SanitizeXMLNameStrict(name: string): (r: string)
    ensures IsXmlName(r)
    ensures name != "" ==> |r| == |name| || |r| == |name| + 4
    ensures |r| == |SanitizeXMLName(name)|
    ensures forall i :: 0 < i < |r| ==> r[i] == SanitizeXMLName(name)[i]
    ensures IsXmlName(SanitizeXMLName(name)) ==> r == SanitizeXMLName(name)
  {
    var r := SanitizeXMLName(name);
    if r[0] == '-' then "_" + r[1..] else r
  }
}
