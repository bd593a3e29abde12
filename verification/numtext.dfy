/**
  Integers as text in a given base, as Go's `strconv.FormatInt` writes
  them and `strconv.ParseInt` reads them (with an explicit base, so no
  `0x` prefixes and no underscores).
 */
module NumText {
  import opened Wrappers

  /** The value of a digit character in any base up to 36; 36 for a
      character that is no digit at all. Letters count in either case. */
  function DigitValue(c: char): (d: nat)
    ensures d <= 36
  {
    if '0' <= c <= '9' then c as int - '0' as int
    else if 'a' <= c <= 'z' then c as int - 'a' as int + 10
    else if 'A' <= c <= 'Z' then c as int - 'A' as int + 10
    else 36
  }

  /** The lower-case digit for `d` from the alphabet `0`-`9`, `a`-`z`, as
      `FormatInt` writes it. */
  function DigitChar(d: nat): (c: char)
    requires d < 36
    ensures DigitValue(c) == d && !('A' <= c <= 'Z')
  {
    if d < 10 then ('0' as int + d) as char else ('a' as int + d - 10) as char
  }

  predicate IsDigitsIn(s: string, base: nat) {
    forall i :: 0 <= i < |s| ==> DigitValue(s[i]) < base
  }

  /** The number the digits spell, most significant first. */
  function Value(s: string, base: nat): nat
    requires IsDigitsIn(s, base)
  {
    if |s| == 0 then 0 else Value(s[..|s| - 1], base) * base + DigitValue(s[|s| - 1])
  }

  function Power(base: nat, n: nat): (p: nat)
    ensures base > 0 ==> p > 0
  {
    if n == 0 then 1 else base * Power(base, n - 1)
  }

  /** The digits of `n` in `base` without leading zeros (a lone "0" for
      zero): `strconv.FormatUint`. */
  function Format(n: nat, base: nat): (s: string)
    requires 2 <= base <= 36
    ensures |s| >= 1 && IsDigitsIn(s, base)
    ensures |s| > 1 ==> s[0] != '0'
    decreases n
  {
    if n < base then [DigitChar(n)]
    else
      DivParts(n, base);
      var init := Format(n / base, base);
      var s := init + [DigitChar(n % base)];
      assert s[0] == init[0];
      s
  }

  /** Reading what `Format` writes gives the number back. */
  lemma {:induction false} FormatRoundTrip(n: nat, base: nat)
    requires 2 <= base <= 36
    ensures Value(Format(n, base), base) == n
    decreases n
  {
    var s := Format(n, base);
    if n >= base {
      var q, d := n / base, n % base;
      DivParts(n, base);
      var init := Format(q, base);
      assert s == init + [DigitChar(d)];
      assert s[..|s| - 1] == init;
      FormatRoundTrip(q, base);
      assert Value(s, base) == Value(init, base) * base + d;
    } else {
      assert s == [DigitChar(n)] && s[..0] == "";
    }
  }

  /** `Format` is short exactly for small numbers. */
  lemma {:induction false} FormatLength(n: nat, base: nat)
    requires 2 <= base <= 36
    ensures n < base <==> |Format(n, base)| == 1
    ensures n < base * base <==> |Format(n, base)| <= 2
    decreases n
  {
    if n >= base {
      var q := FormatStep(n, base);
      FormatLength(q, base);
    }
  }

  /** `Format` of a number at least the base: the digits of the quotient,
      then one more. */
  lemma FormatStep(n: nat, base: nat) returns (q: nat)
    requires 2 <= base <= 36 && base <= n
    ensures 1 <= q < n && |Format(n, base)| == |Format(q, base)| + 1
    ensures q < base <==> n < base * base
  {
    q := n / base;
    DivParts(n, base);
    DivBelow(n, base);
  }

  /** Quotient and remainder of a number at least the base. */
  lemma DivParts(n: nat, base: nat)
    requires 2 <= base <= n
    ensures n == (n / base) * base + n % base && 1 <= n / base < n
  {
  }

  lemma DivBelow(n: nat, base: nat)
    requires base > 0
    ensures n / base < base <==> n < base * base
  {
    var q, r := n / base, n % base;
    assert n == q * base + r;
    if q < base {
      assert q * base <= (base - 1) * base;
    } else {
      assert q * base >= base * base;
    }
  }

  /** Digits written one after another: the value of the front shifts up
      by the length of the back. */
  lemma {:induction false} ValueAppend(a: string, b: string, base: nat)
    requires IsDigitsIn(a, base) && IsDigitsIn(b, base)
    ensures IsDigitsIn(a + b, base)
    ensures Value(a + b, base) == Value(a, base) * Power(base, |b|) + Value(b, base)
    decreases |b|
  {
    if |b| > 0 {
      var b' := b[..|b| - 1];
      assert (a + b)[..|a + b| - 1] == a + b';
      ValueAppend(a, b', base);
      var p := Power(base, |b'|);
      var d := DigitValue(b[|b| - 1]);
      assert b[..|b| - 1] == b';
      assert Value(a + b, base) == Value(a + b', base) * base + d;
      assert Value(b, base) == Value(b', base) * base + d;
      Distribute(Value(a, base), p, Value(b', base), base, d);
      assert Power(base, |b|) == base * p;
    } else {
      assert a + b == a;
    }
  }

  lemma Distribute(x: int, p: int, y: int, base: int, d: int)
    ensures (x * p + y) * base + d == x * (base * p) + (y * base + d)
  {
  }

  /** A leading zero does not change the value. */
  lemma {:induction false} LeadingZero(s: string, base: nat)
    requires base >= 1 && IsDigitsIn(s, base)
    ensures IsDigitsIn("0" + s, base) && Value("0" + s, base) == Value(s, base)
  {
    ValueAppend("0", s, base);
    assert Value("0", base) == 0 by {
      assert "0"[..0] == "";
    }
  }

  /** `strconv.FormatInt`: a minus sign before the digits of a negative
      number. */
  function FormatInt(n: int, base: nat): (s: string)
    requires 2 <= base <= 36
    ensures |s| >= 1
  {
    if n < 0 then "-" + Format(-n, base) else Format(n, base)
  }

  /** The text `strconv.ParseInt` accepts: an optional sign and then at
      least one digit of the base. */
  predicate IsNumeral(s: string, base: nat) {
    if |s| > 0 && (s[0] == '+' || s[0] == '-') then |s| > 1 && IsDigitsIn(s[1..], base)
    else |s| > 0 && IsDigitsIn(s, base)
  }

  /** The signed value of a numeral. */
  function SignedValue(s: string, base: nat): int
    requires IsNumeral(s, base)
  {
    if s[0] == '-' then -(Value(s[1..], base) as int)
    else if s[0] == '+' then Value(s[1..], base)
    else Value(s, base)
  }

  /** The range of a signed `bitSize`-bit integer. */
  predicate FitsBits(v: int, bitSize: nat)
    requires bitSize >= 1
  {
    -(Power(2, bitSize - 1) as int) <= v < Power(2, bitSize - 1)
  }

  lemma {:induction false} PowerAdd(b: nat, m: nat, n: nat)
    ensures Power(b, m + n) == Power(b, m) * Power(b, n)
    decreases m
  {
    if m > 0 {
      PowerAdd(b, m - 1, n);
      assert Power(b, m + n) == b * Power(b, m - 1 + n);
      MulAssoc(b, Power(b, m - 1), Power(b, n));
    }
  }

  lemma MulAssoc(a: nat, b: nat, c: nat)
    ensures a * (b * c) == (a * b) * c
  {
  }

  /** The bounds of 32- and 64-bit integers. */
  lemma TwoPowers()
    ensures Power(2, 31) == 0x8000_0000
    ensures Power(2, 63) == 0x8000_0000_0000_0000
  {
    TwoToSixteen();
    PowerAdd(2, 16, 15);
    PowerAdd(2, 32, 31);
    PowerAdd(2, 16, 16);
  }

  lemma TwoToSixteen()
    ensures Power(2, 15) == 0x8000 && Power(2, 16) == 0x1_0000
  {
    PowerAdd(2, 4, 4);
    PowerAdd(2, 8, 8);
    PowerAdd(2, 8, 7);
    PowerAdd(2, 4, 3);
  }

  /** The digit loop of `strconv.ParseUint`; overflow is judged by the
      caller on the exact value. */
  method ParseDigits(s: string, base: nat) returns (r: Option<nat>)
    ensures r.Some? <==> |s| > 0 && IsDigitsIn(s, base)
    ensures r.Some? ==> r.value == Value(s, base)
  {
    if |s| == 0 {
      return None;
    }
    var acc := 0;
    for i := 0 to |s|
      invariant IsDigitsIn(s[..i], base)
      invariant acc == Value(s[..i], base)
    {
      var d := DigitValue(s[i]);
      if d >= base {
        assert !IsDigitsIn(s, base);
        return None;
      }
      assert s[..i + 1][..i] == s[..i];
      acc := acc * base + d;
    }
    assert s[..|s|] == s;
    return Some(acc);
  }

  /** What `strconv.ParseInt(s, base, bitSize)` answers for an explicit
      base: the value of an in-range numeral, and an error otherwise. */
  function ParseInt(s: string, base: nat, bitSize: nat): (r: Option<int>)
    requires bitSize >= 1
  {
    if IsNumeral(s, base) && FitsBits(SignedValue(s, base), bitSize) then Some(SignedValue(s, base)) else None
  }

  /** The steps `strconv.ParseInt` takes: a sign, then the digit loop,
      then the range check; they give the answer above. */
  method ParseIntSteps(s: string, base: nat, bitSize: nat) returns (r: Option<int>)
    requires bitSize >= 1
    ensures r == ParseInt(s, base, bitSize)
  {
    if |s| == 0 {
      return None;
    }
    var negative := s[0] == '-';
    var digits := if s[0] == '+' || s[0] == '-' then s[1..] else s;
    var u := ParseDigits(digits, base);
    if u.None? {
      return None;
    }
    var v: int := if negative then -(u.value as int) else u.value;
    if !FitsBits(v, bitSize) {
      return None;
    }
    return Some(v);
  }

  /** Every in-range number survives formatting and parsing. */
  lemma FormatIntParses(n: int, base: nat)
    requires 2 <= base <= 36
    ensures IsNumeral(FormatInt(n, base), base)
    ensures SignedValue(FormatInt(n, base), base) == n
  {
    if n < 0 {
      NegativeParses(n, base);
    } else {
      FormatRoundTrip(n, base);
      var s := Format(n, base);
      DigitIsNoSign(s[0], base);
    }
  }

  lemma NegativeParses(n: int, base: nat)
    requires 2 <= base <= 36 && n < 0
    ensures IsNumeral(FormatInt(n, base), base)
    ensures SignedValue(FormatInt(n, base), base) == n
  {
    var s := FormatInt(n, base);
    assert s[1..] == Format(-n, base);
    FormatRoundTrip(-n, base);
  }

  lemma DigitIsNoSign(c: char, base: nat)
    requires base <= 36 && DigitValue(c) < base
    ensures c != '-' && c != '+'
  {
  }
}
