/**
  The colour and character conversions of `convertor/convertor.go`.
 */
module Convertor {
  import opened NumText
  import opened Text
  import SliceOps
  import opened Wrappers
  import GoInt

  predicate IsLowerHex(c: char) {
    '0' <= c <= '9' || 'a' <= c <= 'f'
  }

  /** One colour component as `ColorRGBToHex` writes it: `FormatInt` in
      base 16, with a "0" in front of a single digit. */
  function HexComponent(x: int): string {
    var h := FormatInt(x, 16);
    if |h| == 1 then "0" + h else h
  }

  /** A component in 0..255 is two lower-case hex digits spelling it. */
  lemma HexComponentDigits(x: int)
    requires 0 <= x < 256
    ensures |HexComponent(x)| == 2 && IsDigitsIn(HexComponent(x), 16)
    ensures Value(HexComponent(x), 16) == x
    ensures IsLowerHex(HexComponent(x)[0]) && IsLowerHex(HexComponent(x)[1])
  {
    FormatLength(x, 16);
    FormatRoundTrip(x, 16);
    var h := Format(x, 16);
    if |h| == 1 {
      LeadingZero(h, 16);
    }
    FormatLowerHex(x);
  }

  /** `Format` in base 16 writes only `0-9a-f`. */
  lemma {:induction false} FormatLowerHex(n: nat)
    ensures forall i :: 0 <= i < |Format(n, 16)| ==> IsLowerHex(Format(n, 16)[i])
    decreases n
  {
    if n >= 16 {
      DivParts(n, 16);
      FormatLowerHex(n / 16);
      assert Format(n, 16) == Format(n / 16, 16) + [DigitChar(n % 16)];
    }
  }

  /** `ColorRGBToHex` (convertor.go:249-265). */
  function ColorRGBToHex(red: int, green: int, blue: int): (r: string)
    ensures 0 <= red < 256 && 0 <= green < 256 && 0 <= blue < 256 ==>
      |r| == 7 && r[0] == '#' && forall i :: 1 <= i < 7 ==> IsLowerHex(r[i])
  {
    var a, b, c := HexComponent(red), HexComponent(green), HexComponent(blue);
    if 0 <= red < 256 && 0 <= green < 256 && 0 <= blue < 256 then
      HexComponentDigits(red);
      HexComponentDigits(green);
      HexComponentDigits(blue);
      SixHex(a, b, c);
      "#" + (a + b + c)
    else "#" + (a + b + c)
  }

  lemma SixHex(a: string, b: string, c: string)
    requires |a| == 2 && |b| == 2 && |c| == 2
    requires IsLowerHex(a[0]) && IsLowerHex(a[1]) && IsLowerHex(b[0]) && IsLowerHex(b[1])
    requires IsLowerHex(c[0]) && IsLowerHex(c[1])
    ensures var r := "#" + (a + b + c); |r| == 7 && r[0] == '#' && forall i :: 1 <= i < 7 ==> IsLowerHex(r[i])
  {
  }

  /** `ColorHexToRGB` (convertor.go:238-246): one leading "#" is dropped,
      the rest read as a 32-bit base-16 integer and split into its three
      bytes; an unreadable colour is black. */
  function ColorHexToRGB(colorHex: string): (rgb: (int, int, int))
    ensures ParseInt(TrimPrefix(colorHex, "#"), 16, 32).None? ==> rgb == (0, 0, 0)
    ensures ParseInt(TrimPrefix(colorHex, "#"), 16, 32).Some? ==>
      0 <= rgb.1 < 256 && 0 <= rgb.2 < 256
      && rgb.0 * 65536 + rgb.1 * 256 + rgb.2 == ParseInt(TrimPrefix(colorHex, "#"), 16, 32).value
  {
    match ParseInt(TrimPrefix(colorHex, "#"), 16, 32)
    case None => (0, 0, 0)
    case Some(color) =>
      var rgb := (color / 65536, (color % 65536) / 256, color % 256);
      assert color == (color / 65536) * 65536 + color % 65536;
      assert color % 65536 == ((color % 65536) / 256) * 256 + color % 256 by {
        ByteSplit(color);
      }
      rgb
  }

  /** The low two bytes of a number: `(c & 0xFF00) >> 8` and `c & 0xFF`. */
  lemma ByteSplit(c: int)
    ensures c % 65536 == ((c % 65536) / 256) * 256 + c % 256
  {
    var q := c / 65536;
    var m := c % 65536;
    assert c == q * 65536 + m;
    assert m == (m / 256) * 256 + m % 256;
    GoIntModSplit(c, q, m);
  }

  lemma GoIntModSplit(c: int, q: int, m: int)
    requires 0 <= m < 65536 && c == q * 65536 + m
    ensures c % 256 == m % 256
  {
    var k := m / 256;
    assert c == (q * 256 + k) * 256 + m % 256;
    GoInt.DivModUnique(c, 256, q * 256 + k, m % 256);
  }

  /** Components in 0..255 come back unchanged from their hex text. */
  lemma ColorRoundTrip(red: int, green: int, blue: int)
    requires 0 <= red < 256 && 0 <= green < 256 && 0 <= blue < 256
    ensures ColorHexToRGB(ColorRGBToHex(red, green, blue)) == (red, green, blue)
  {
    var hex := ColorRGBToHex(red, green, blue);
    var v := red * 65536 + green * 256 + blue;
    assert ParseInt(TrimPrefix(hex, "#"), 16, 32) == Some(v) by {
      var digits := HexComponent(red) + HexComponent(green) + HexComponent(blue);
      assert hex == "#" + digits;
      assert TrimPrefix(hex, "#") == digits;
      HexValue(red, green, blue);
      ParseSix(digits, v);
    }
    Unique(v, red, green, blue, ColorHexToRGB(hex));
  }

  /** The six digits spell the three bytes. */
  lemma HexValue(red: int, green: int, blue: int)
    requires 0 <= red < 256 && 0 <= green < 256 && 0 <= blue < 256
    ensures var digits := HexComponent(red) + HexComponent(green) + HexComponent(blue);
      |digits| == 6 && IsDigitsIn(digits, 16) && DigitValue(digits[0]) < 16
      && Value(digits, 16) == red * 65536 + green * 256 + blue
  {
    var r, g, b := HexComponent(red), HexComponent(green), HexComponent(blue);
    HexComponentDigits(red);
    HexComponentDigits(green);
    HexComponentDigits(blue);
    ValueAppend(r, g, 16);
    ValueAppend(r + g, b, 16);
    assert Power(16, 2) == 256;
    var rg := Value(r + g, 16);
    assert rg == red * 256 + green;
    assert Value(r + g + b, 16) == rg * 256 + blue;
    assert rg * 256 + blue == red * 65536 + green * 256 + blue;
    assert (r + g + b)[0] == r[0];
  }

  /** Six hex digits are a 32-bit numeral. */
  lemma ParseSix(digits: string, v: int)
    requires |digits| == 6 && IsDigitsIn(digits, 16) && DigitValue(digits[0]) < 16
    requires Value(digits, 16) == v && 0 <= v < 0x100_0000
    ensures ParseInt(digits, 16, 32) == Some(v)
  {
    assert IsNumeral(digits, 16);
    assert SignedValue(digits, 16) == v;
    TwoPowers();
  }

  /** The byte split of a number is unique. */
  lemma Unique(v: int, red: int, green: int, blue: int, rgb: (int, int, int))
    requires 0 <= green < 256 && 0 <= blue < 256 && v == red * 65536 + green * 256 + blue
    requires 0 <= rgb.1 < 256 && 0 <= rgb.2 < 256 && v == rgb.0 * 65536 + rgb.1 * 256 + rgb.2
    ensures rgb == (red, green, blue)
  {
    GoInt.DivModUnique(v, 256, red * 256 + green, blue);
    GoInt.DivModUnique(v, 256, rgb.0 * 256 + rgb.1, rgb.2);
    GoInt.DivModUnique(red * 256 + green, 256, red, green);
    GoInt.DivModUnique(rgb.0 * 256 + rgb.1, 256, rgb.0, rgb.1);
  }

  /** `ToChar` (convertor.go:64-73): one string per character, and a
      single empty string for empty input. */
  function ToChar(s: string): (r: seq<string>)
    ensures s == "" ==> r == [""]
    ensures s != "" ==> |r| == |s| && forall i :: 0 <= i < |s| ==> r[i] == [s[i]]
  {
    if s == "" then [""] else seq(|s|, i requires 0 <= i < |s| => [s[i]])
  }

  /** The characters put back together give the string. */
  lemma {:induction false} ToCharJoin(s: string)
    ensures SliceOps.Flatten(ToChar(s)) == s
    decreases |s|
  {
    if |s| > 0 {
      var init := s[..|s| - 1];
      if init == "" {
        assert s == [s[0]];
        assert ToChar(s) == [s];
        SliceOps.FlattenAppend([], s);
      } else {
        ToCharJoin(init);
        assert ToChar(s) == ToChar(init) + [[s[|s| - 1]]];
        SliceOps.FlattenAppend(ToChar(init), [s[|s| - 1]]);
      }
    } else {
      SliceOps.FlattenAppend([], "");
    }
  }
}
