/**
  The in-memory part of `xmlutil/xmlutil.go`: dropping characters XML 1.0
  does not allow, and queries and updates on the element tree. Elements
  are values; the pointers the Go code hands out are modelled by the
  elements they point to.
 */
module XmlUtil {
  import opened Wrappers

  datatype Attr = Attr(name: string, value: string)

  /** `Element` (xmlutil.go:17-22): the local name, the attributes in
      order, the child elements in order, and the character data. */
  datatype Element = Element(name: string, attrs: seq<Attr>, children: seq<Element>, text: string)

  // ---------------------------------------------------------------------
  // CleanInvalidChars
  // ---------------------------------------------------------------------

  /** The Char production of section 2.2 of XML 1.0, as the test of
      xmlutil.go:99-102 writes it. */
  predicate IsXmlChar(c: char) {
    var n := c as int;
    n == 0x09 || n == 0x0A || n == 0x0D
    || (0x20 <= n <= 0xD7FF)
    || (0xE000 <= n <= 0xFFFD)
    || (0x10000 <= n <= 0x10FFFF)
  }

  /** The characters of `s` that XML allows, in order. */
  function KeepXmlChars(s: string): (r: string)
    ensures |r| <= |s|
    ensures forall i :: 0 <= i < |r| ==> IsXmlChar(r[i])
  {
    if |s| == 0 then ""
    else KeepXmlChars(s[..|s| - 1]) + (if IsXmlChar(s[|s| - 1]) then [s[|s| - 1]] else "")
  }

  /** `CleanInvalidChars` (xmlutil.go:94-107): the loop that appends each
      allowed character. */
  method CleanInvalidChars(s: string) returns (cleaned: string)
    ensures cleaned == KeepXmlChars(s)
    ensures forall i :: 0 <= i < |cleaned| ==> IsXmlChar(cleaned[i])
  {
    cleaned := "";
    for i := 0 to |s|
      invariant cleaned == KeepXmlChars(s[..i])
    {
      assert s[..i + 1][..i] == s[..i];
      if IsXmlChar(s[i]) {
        cleaned := cleaned + [s[i]];
      }
    }
    assert s[..|s|] == s;
  }

  /** Cleaning text in two pieces is cleaning each piece. */
  lemma {:induction false} KeepAppend(a: string, b: string)
    ensures KeepXmlChars(a + b) == KeepXmlChars(a) + KeepXmlChars(b)
    decreases |b|
  {
    if |b| == 0 {
      assert a + b == a;
    } else {
      var b' := b[..|b| - 1];
      assert (a + b)[..|a + b| - 1] == a + b';
      assert (a + b)[|a + b| - 1] == b[|b| - 1];
      KeepAppend(a, b');
    }
  }

  /** Text of allowed characters is kept whole, and only such text is. */
  lemma {:induction false} KeepValid(s: string)
    ensures KeepXmlChars(s) == s <==> forall i :: 0 <= i < |s| ==> IsXmlChar(s[i])
  {
    if |s| > 0 {
      var s' := s[..|s| - 1];
      KeepValid(s');
      if forall i :: 0 <= i < |s| ==> IsXmlChar(s[i]) {
        assert forall i :: 0 <= i < |s'| ==> IsXmlChar(s'[i]) by {
          forall i | 0 <= i < |s'| ensures IsXmlChar(s'[i]) {
            assert s'[i] == s[i];
          }
        }
        assert s' + [s[|s| - 1]] == s;
      }
    }
  }

  /** Cleaning twice is cleaning once. */
  lemma CleanIdempotent(s: string)
    ensures KeepXmlChars(KeepXmlChars(s)) == KeepXmlChars(s)
  {
    KeepValid(KeepXmlChars(s));
  }

  /** A removed character is one XML does not allow: each allowed
      character of `s` survives, counted with multiplicity. */
  lemma {:induction false} KeepCounts(s: string, c: char)
    ensures multiset(KeepXmlChars(s))[c] == if IsXmlChar(c) then multiset(s)[c] else 0
  {
    if |s| > 0 {
      var s' := s[..|s| - 1];
      KeepCounts(s', c);
      assert s == s' + [s[|s| - 1]];
      assert multiset(s) == multiset(s') + multiset{s[|s| - 1]};
    }
  }

  // ---------------------------------------------------------------------
  // Walking the tree
  // ---------------------------------------------------------------------

  /** The elements of a forest in pre-order: each tree's root, then its
      descendants, tree after tree. */
  function AllIn(cs: seq<Element>): (r: seq<Element>)
    ensures |r| >= |cs|
    decreases cs
  {
    if |cs| == 0 then []
    else [cs[0]] + AllIn(cs[0].children) + AllIn(cs[1..])
  }

  /** `GetAllElements` (xmlutil.go:174-184): the element, then each child
      together with its own descendants. */
  function GetAllElements(e: Element): (r: seq<Element>)
    ensures |r| >= 1 && r[0] == e && r[1..] == AllIn(e.children)
  {
    [e] + AllIn(e.children)
  }

  /** The number of elements in a forest. */
  function Size(cs: seq<Element>): nat
    decreases cs
  {
    if |cs| == 0 then 0 else 1 + Size(cs[0].children) + Size(cs[1..])
  }

  /** Pre-order lists each element once. */
  lemma {:induction false} AllInSize(cs: seq<Element>)
    ensures |AllIn(cs)| == Size(cs)
    decreases cs
  {
    if |cs| > 0 {
      AllInSize(cs[0].children);
      AllInSize(cs[1..]);
    }
  }

  /** The elements with local name `tag`, in order. */
  function Named(es: seq<Element>, tag: string): (r: seq<Element>)
    ensures |r| <= |es|
    ensures forall i :: 0 <= i < |r| ==> r[i].name == tag
  {
    if |es| == 0 then []
    else (if es[0].name == tag then [es[0]] else []) + Named(es[1..], tag)
  }

  lemma {:induction false} NamedAppend(a: seq<Element>, b: seq<Element>, tag: string)
    ensures Named(a + b, tag) == Named(a, tag) + Named(b, tag)
  {
    if |a| == 0 {
      assert a + b == b;
    } else {
      assert (a + b)[0] == a[0] && (a + b)[1..] == a[1..] + b;
      NamedAppend(a[1..], b, tag);
    }
  }

  /** The recursive `findElements` of xmlutil.go:114-123 on a list of
      children: for each child, the child when it matches, then whatever
      its own children yield. */
  function FindElements(cs: seq<Element>, tag: string): (r: seq<Element>)
    ensures forall i :: 0 <= i < |r| ==> r[i].name == tag
    decreases cs
  {
    if |cs| == 0 then []
    else
      (if cs[0].name == tag then [cs[0]] else [])
      + FindElements(cs[0].children, tag) + FindElements(cs[1..], tag)
  }

  /** `GetElementsByTagName` (xmlutil.go:110-127): the descendants with
      local name `tag`, not the element itself, in pre-order. */
  function GetElementsByTagName(e: Element, tag: string): (r: seq<Element>)
    ensures r == Named(GetAllElements(e)[1..], tag)
    ensures forall i :: 0 <= i < |r| ==> r[i].name == tag
  {
    FindIsNamed(e.children, tag);
    FindElements(e.children, tag)
  }

  /** The search finds exactly the matching elements of the pre-order. */
  lemma {:induction false} FindIsNamed(cs: seq<Element>, tag: string)
    ensures FindElements(cs, tag) == Named(AllIn(cs), tag)
    decreases cs
  {
    if |cs| > 0 {
      FindIsNamed(cs[0].children, tag);
      FindIsNamed(cs[1..], tag);
      var front, mid, back := [cs[0]], AllIn(cs[0].children), AllIn(cs[1..]);
      NamedAppend(front, mid, tag);
      NamedAppend(front + mid, back, tag);
      assert Named(front, tag) == if cs[0].name == tag then [cs[0]] else [] by {
        assert front[1..] == [];
      }
    }
  }

  /** `GetElementByTagName` (xmlutil.go:130-136): the first match, or
      nothing (`nil`). */
  function GetElementByTagName(e: Element, tag: string): (r: Option<Element>)
    ensures r.None? <==> |GetElementsByTagName(e, tag)| == 0
    ensures r.Some? ==> r.value == GetElementsByTagName(e, tag)[0] && r.value.name == tag
  {
    var elements := GetElementsByTagName(e, tag);
    if |elements| > 0 then Some(elements[0]) else None
  }

  /** `GetElementTextByTagName` (xmlutil.go:139-145): the first match's
      text, or "" when nothing matches. */
  function GetElementTextByTagName(e: Element, tag: string): (r: string)
    ensures GetElementByTagName(e, tag).None? ==> r == ""
    ensures GetElementByTagName(e, tag).Some? ==> r == GetElementByTagName(e, tag).value.text
  {
    match GetElementByTagName(e, tag)
    case None => ""
    case Some(element) => element.text
  }

  /** The first match is the first descendant in pre-order with the
      name, and there is none exactly when no descendant has it. */
  lemma FirstMatch(e: Element, tag: string)
    ensures var all := AllIn(e.children);
      match GetElementByTagName(e, tag)
      case None => forall k :: 0 <= k < |all| ==> all[k].name != tag
      case Some(x) => exists k :: (0 <= k < |all| && all[k] == x
        && all[k].name == tag && forall j :: 0 <= j < k ==> all[j].name != tag)
  {
    var all := AllIn(e.children);
    assert GetElementsByTagName(e, tag) == Named(all, tag);
    NamedFirst(all, tag);
  }

  lemma {:induction false} NamedFirst(es: seq<Element>, tag: string)
    ensures |Named(es, tag)| == 0 <==> forall k :: 0 <= k < |es| ==> es[k].name != tag
    ensures |Named(es, tag)| > 0 ==> exists k :: (0 <= k < |es| && es[k] == Named(es, tag)[0]
      && es[k].name == tag && forall j :: 0 <= j < k ==> es[j].name != tag)
  {
    if |es| > 0 {
      NamedFirst(es[1..], tag);
      if es[0].name != tag {
        assert forall k :: 1 <= k < |es| ==> es[k] == es[1..][k - 1];
        if |Named(es, tag)| > 0 {
          var k :| 0 <= k < |es[1..]| && es[1..][k] == Named(es[1..], tag)[0]
            && es[1..][k].name == tag && forall j :: 0 <= j < k ==> es[1..][j].name != tag;
          assert es[k + 1] == Named(es, tag)[0];
        }
      } else {
        assert es[0] == Named(es, tag)[0];
      }
    }
  }

  // ---------------------------------------------------------------------
  // Updates and attributes
  // ---------------------------------------------------------------------

  /** `AddChild` (xmlutil.go:154-156): the child goes last; the rest of
      the element is as it was. */
  function AddChild(e: Element, child: Element): (r: Element)
    ensures |r.children| == |e.children| + 1
    ensures r.children[..|e.children|] == e.children && r.children[|e.children|] == child
    ensures r.name == e.name && r.attrs == e.attrs && r.text == e.text
  {
    e.(children := e.children + [child])
  }

  /** `SetAttribute` (xmlutil.go:159-161): a new attribute goes last, even
      when one with that name is already there. */
  function SetAttribute(e: Element, name: string, value: string): (r: Element)
    ensures r.attrs == e.attrs + [Attr(name, value)]
    ensures r.name == e.name && r.children == e.children && r.text == e.text
  {
    e.(attrs := e.attrs + [Attr(name, value)])
  }

  /** `GetAttribute` (xmlutil.go:164-171): the value of the first
      attribute with the name, or "" when there is none. */
  function GetAttribute(e: Element, name: string): (r: string)
    ensures (forall i :: 0 <= i < |e.attrs| ==> e.attrs[i].name != name) ==> r == ""
    ensures forall i :: (0 <= i < |e.attrs| && e.attrs[i].name == name
      && forall j :: 0 <= j < i ==> e.attrs[j].name != name) ==> r == e.attrs[i].value
  {
    FirstValue(e.attrs, name)
  }

  function FirstValue(attrs: seq<Attr>, name: string): (r: string)
    ensures (forall i :: 0 <= i < |attrs| ==> attrs[i].name != name) ==> r == ""
    ensures forall i :: (0 <= i < |attrs| && attrs[i].name == name
      && forall j :: 0 <= j < i ==> attrs[j].name != name) ==> r == attrs[i].value
  {
    if |attrs| == 0 then ""
    else if attrs[0].name == name then attrs[0].value
    else
      var r := FirstValue(attrs[1..], name);
      assert forall i :: 1 <= i < |attrs| ==> attrs[i] == attrs[1..][i - 1];
      r
  }

  /** After `SetAttribute` the new value is read back unless an attribute
      of that name was already there, which then still wins; other names
      read as before. */
  lemma SetThenGet(e: Element, name: string, value: string, other: string)
    ensures GetAttribute(SetAttribute(e, name, value), name)
      == if exists i :: 0 <= i < |e.attrs| && e.attrs[i].name == name then GetAttribute(e, name) else value
    ensures other != name ==> GetAttribute(SetAttribute(e, name, value), other) == GetAttribute(e, other)
  {
    var r := SetAttribute(e, name, value);
    FirstValueAppend(e.attrs, Attr(name, value), name);
    FirstValueAppend(e.attrs, Attr(name, value), other);
  }

  /** Appending an attribute only matters when no earlier one has the
      name. */
  lemma {:induction false} FirstValueAppend(attrs: seq<Attr>, a: Attr, name: string)
    ensures FirstValue(attrs + [a], name)
      == if exists i :: 0 <= i < |attrs| && attrs[i].name == name then FirstValue(attrs, name)
         else if a.name == name then a.value else ""
  {
    if |attrs| > 0 {
      assert (attrs + [a])[1..] == attrs[1..] + [a];
      FirstValueAppend(attrs[1..], a, name);
      if attrs[0].name != name {
        if exists i :: 0 <= i < |attrs| && attrs[i].name == name {
          var i :| 0 <= i < |attrs| && attrs[i].name == name;
          assert attrs[1..][i - 1].name == name;
        } else {
          assert forall i :: 0 <= i < |attrs[1..]| ==> attrs[1..][i] == attrs[i + 1];
        }
      }
    } else {
      assert [] + [a] == [a];
    }
  }
}
