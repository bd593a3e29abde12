/**
  `Comma` from `formatter/formatter.go`: thousands separators in the
  integer part of a number's text. The value arrives as its text (the
  `convertor.ToString` step is not modelled), and whether
  `strconv.ParseFloat` accepts that text is a parameter.
 */
module Formatter {
  import opened Text
  import StrWords

  /** The integer part with a comma before every group of three digits,
      counted from the right. */
  function Group(d: string): string
    decreases |d|
  {
    if |d| > 3 then Group(d[..|d| - 3]) + "," + d[|d| - 3..] else d
  }

  /** The text with its commas deleted. */
  function DropCommas(s: string): string {
    if |s| == 0 then "" else (if s[0] == ',' then "" else [s[0]]) + DropCommas(s[1..])
  }

  lemma {:induction false} DropCommasAppend(a: string, b: string)
    ensures DropCommas(a + b) == DropCommas(a) + DropCommas(b)
  {
    if |a| == 0 {
      assert a + b == b;
    } else {
      assert (a + b)[0] == a[0] && (a + b)[1..] == a[1..] + b;
      DropCommasAppend(a[1..], b);
    }
  }

  /** Text without commas is its own comma-free form. */
  lemma {:induction false} DropNoCommas(s: string)
    requires NoComma(s)
    ensures DropCommas(s) == s
  {
    if |s| > 0 {
      NoCommaSplit(s, 1);
      DropNoCommas(s[1..]);
      assert s == [s[0]] + s[1..];
    }
  }

  /** Deleting the commas from the grouped digits gives the digits back. */
  lemma {:induction false} GroupDropCommas(d: string)
    requires NoComma(d)
    ensures DropCommas(Group(d)) == d
    decreases |d|
  {
    if |d| > 3 {
      var front, back := d[..|d| - 3], d[|d| - 3..];
      NoCommaSplit(d, |d| - 3);
      GroupDropCommas(front);
      DropCommaGroup(Group(front), front, back);
      assert front + back == d;
    } else {
      DropNoCommas(d);
    }
  }

  /** One more group after a comma. */
  lemma DropCommaGroup(g: string, front: string, back: string)
    requires DropCommas(g) == front && NoComma(back)
    ensures DropCommas(g + "," + back) == front + back
  {
    var x := "," + back;
    assert DropCommas(x) == back by {
      DropCommasAppend(",", back);
      DropNoCommas(back);
      assert DropCommas(",") == "" by {
        assert ","[1..] == "";
      }
    }
    assert DropCommas(g + x) == front + back by {
      DropCommasAppend(g, x);
    }
    assert g + "," + back == g + x;
  }

  /** Where the commas go: one at every fourth place counted from the
      right end, and nowhere else, so that every comma has exactly three
      digits after it before the next comma or the end. */
  lemma {:induction false} GroupCommas(d: string)
    requires |d| > 0 && NoComma(d)
    ensures |Group(d)| == |d| + (|d| - 1) / 3
    ensures forall p :: 0 <= p < |Group(d)| ==> (Group(d)[p] == ',' <==> p > 0 && (|Group(d)| - p) % 4 == 0)
    decreases |d|
  {
    var g := Group(d);
    if |d| > 3 {
      var front, back := d[..|d| - 3], d[|d| - 3..];
      NoCommaSplit(d, |d| - 3);
      GroupCommas(front);
      var gf := Group(front);
      assert g == gf + "," + back;
      forall p | 0 <= p < |g|
        ensures g[p] == ',' <==> p > 0 && (|g| - p) % 4 == 0
      {
        if p < |gf| {
          assert g[p] == gf[p];
          assert (|g| - p) % 4 == (|gf| - p) % 4 by {
            ShiftFour(|gf| - p);
          }
        } else if p > |gf| {
          assert g[p] == back[p - |gf| - 1];
        }
      }
    } else {
      forall p | 0 <= p < |g|
        ensures g[p] != ','
      {
        assert g[p] == d[p];
      }
    }
  }

  lemma ShiftFour(n: int)
    ensures (n + 4) % 4 == n % 4
  {
  }

  /** The leading '-' of `Comma` (formatter.go:20-23): whether there is
      one, and the text after it. */
  function SplitSign(s: string): (r: (bool, string))
    ensures r.0 == (|s| > 0 && s[0] == '-')
    ensures r.1 == if r.0 then s[1..] else s
    ensures s == (if r.0 then "-" else "") + r.1
  {
    if |s| > 0 && s[0] == '-' then (true, s[1..]) else (false, s)
  }

  /** Where the integer part ends: the first '.', or the end
      (formatter.go:24-27). */
  function IntEnd(t: string): (k: nat)
    ensures k <= |t| && forall j :: 0 <= j < k ==> t[j] != '.'
    ensures k < |t| ==> t[k] == '.'
  {
    var k := CharIndex(t, '.');
    if k == -1 then |t| else k
  }

  predicate AllDigits(s: string) {
    forall i :: 0 <= i < |s| ==> StrWords.IsDigit(s[i])
  }

  /** The text `-?[0-9]+(\.[0-9]+)?` this model states its properties
      for. */
  predicate IsDecimal(s: string) {
    var t := SplitSign(s).1;
    var k := IntEnd(t);
    k > 0 && AllDigits(t[..k]) && (k < |t| ==> |t| > k + 1 && AllDigits(t[k + 1..]))
  }

  /** What `Comma` writes after the prefix: the sign, the grouped digits
      of the integer part, and the rest as it was. */
  function Grouped(s: string): string {
    var sign := SplitSign(s);
    var k := IntEnd(sign.1);
    (if sign.0 then "-" else "") + (Group(sign.1[..k]) + sign.1[k..])
  }

  /** `Comma` (formatter.go:14-36) on the text of the value: "" when it
      does not parse as a number, otherwise the prefix and the text with
      a comma inserted three places further left each round of the loop
      of lines 28-31. */
  method Comma(value: string, parses: bool, prefixSymbol: string) returns (r: string)
    ensures !parses ==> r == ""
    ensures parses ==> r == prefixSymbol + Grouped(value)
  {
    if !parses {
      return "";
    }
    var numString := value;
    var isNegative := |numString| > 0 && numString[0] == '-';
    if isNegative {
      numString := numString[1..];
    }
    var index := CharIndex(numString, '.');
    if index == -1 {
      index := |numString|;
    }
    GroupedParts(value, isNegative, numString, index);
    numString := InsertCommas(numString, index);
    var sign := if isNegative then "-" else "";
    numString := sign + numString;
    r := prefixSymbol + numString;
  }

  /** `Grouped` in terms of the sign and the integer part's end as
      `Comma` finds them. */
  lemma GroupedParts(s: string, negative: bool, t: string, index: nat)
    requires negative == (|s| > 0 && s[0] == '-')
    requires t == if negative then s[1..] else s
    requires index == IntEnd(t)
    ensures Grouped(s) == (if negative then "-" else "") + (Group(t[..index]) + t[index..])
  {
    assert SplitSign(s).0 == negative && SplitSign(s).1 == t;
  }

  /** The loop of formatter.go:28-31: while more than three digits are
      left in front of `index`, step three to the left and put a comma
      there. */
  method InsertCommas(digits: string, end: nat) returns (numString: string)
    requires end <= |digits|
    ensures numString == Group(digits[..end]) + digits[end..]
  {
    numString := digits;
    var index := end;
    ghost var tail := "";
    assert digits == digits[..end] + digits[end..];
    while index > 3
      invariant 0 <= index <= end
      invariant numString == digits[..index] + tail + digits[end..]
      invariant Group(digits[..end]) == Group(digits[..index]) + tail
    {
      GroupStep(digits, index);
      InsertComma(digits, index, tail, digits[end..]);
      tail := "," + digits[index - 3..index] + tail;
      index := index - 3;
      numString := numString[..index] + "," + numString[index..];
    }
    assert Group(digits[..index]) == digits[..index];
  }

  /** One round of the loop: the last three digits of the front become a
      group of their own. */
  lemma GroupStep(digits: string, index: nat)
    requires 3 < index <= |digits|
    ensures Group(digits[..index]) == Group(digits[..index - 3]) + "," + digits[index - 3..index]
  {
    var front := digits[..index];
    assert front[..index - 3] == digits[..index - 3];
    assert front[index - 3..] == digits[index - 3..index];
  }

  /** Inserting a comma three places before `index`. */
  lemma InsertComma(digits: string, index: nat, tail: string, rest: string)
    requires 3 < index <= |digits|
    ensures var n := digits[..index] + tail + rest;
      n[..index - 3] + "," + n[index - 3..] == digits[..index - 3] + ("," + digits[index - 3..index] + tail) + rest
  {
    var n := digits[..index] + tail + rest;
    assert n[..index - 3] == digits[..index - 3];
    assert n[index - 3..] == digits[index - 3..index] + tail + rest;
  }

  /** On a decimal numeral, deleting the commas from what `Comma` writes
      after the prefix gives the numeral back. */
  lemma CommaDecimal(s: string)
    requires IsDecimal(s)
    ensures DropCommas(Grouped(s)) == s
  {
    var sp := SplitSign(s);
    var t := sp.1;
    var k := IntEnd(t);
    var sign := if sp.0 then "-" else "";
    DecimalNoComma(t, k);
    GroupedParts(s, sp.0, t, k);
    DropGrouped(sign, t[..k], t[k..]);
    Rejoin(t, k);
  }

  /** The commas deleted from the sign, the grouped integer part and the
      rest, one piece at a time. */
  lemma DropGrouped(sign: string, front: string, rest: string)
    requires NoComma(sign) && NoComma(front) && NoComma(rest)
    ensures DropCommas(sign + (Group(front) + rest)) == sign + (front + rest)
  {
    GroupDropCommas(front);
    DropCommasAppend(sign, Group(front) + rest);
    DropCommasAppend(Group(front), rest);
    DropNoCommas(sign);
    DropNoCommas(rest);
  }

  /** Neither part of a decimal numeral holds a comma. */
  lemma DecimalNoComma(t: string, k: nat)
    requires k <= |t| && AllDigits(t[..k])
    requires k < |t| ==> t[k] == '.' && AllDigits(t[k + 1..])
    ensures NoComma(t[..k]) && NoComma(t[k..])
  {
    forall i | k < i < |t|
      ensures t[i] != ','
    {
      assert t[i] == t[k + 1..][i - k - 1];
    }
  }

  lemma Rejoin(t: string, k: nat)
    requires k <= |t|
    ensures t[..k] + t[k..] == t
  {
  }

  predicate NoComma(s: string) {
    forall i :: 0 <= i < |s| ==> s[i] != ','
  }

  lemma NoCommaSplit(d: string, n: nat)
    requires n <= |d| && NoComma(d)
    ensures NoComma(d[..n]) && NoComma(d[n..])
  {
    assert forall i :: n <= i < |d| ==> d[n..][i - n] == d[i];
  }
}
