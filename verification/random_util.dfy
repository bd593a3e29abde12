/**
  The deterministic parts of `random/random.go`: the table-size rounding
  `nearestPowerOfTwo` and the way `UUIdV4` turns sixteen random bytes into
  a version 4 UUID (section 4.4 of RFC 4122). The random source is a
  parameter: `UUIdV4` receives what `io.ReadFull` produced.
 */
module Random {
  import opened Wrappers
  import opened GoInt
  import opened NumText
  import Convertor

  // ---------------------------------------------------------------------
  // nearestPowerOfTwo
  // ---------------------------------------------------------------------

  /** `MaximumCapacity` (random.go:16): `math.MaxInt32>>1 + 1`, 2^30. */
  const MaximumCapacity := 0x4000_0000

  predicate IsPowerOfTwo(r: int)
    decreases if r < 0 then 0 else r
  {
    r == 1 || (r > 1 && r % 2 == 0 && IsPowerOfTwo(r / 2))
  }

  /** What the or-shift cascade `n |= n >> 1; ... n |= n >> 16`
      (random.go:249-254) leaves in a non-negative `n`: every bit below
      the highest set bit set as well. */
  function FillBelow(n: nat): (m: nat)
    ensures n <= m && IsPowerOfTwo(m + 1)
    ensures n == 0 ==> m == 0
    ensures n > 0 ==> m < 2 * n
  {
    if n == 0 then 0 else 2 * FillBelow(n / 2) + 1
  }

  /** `nearestPowerOfTwo` (random.go:248-261) on a 64-bit `cap`. `cap - 1`
      wraps for the least `int`; a negative value stays negative through
      the cascade (the sign bit only spreads); a value of at least 2^30
      stays at least 2^30 (or-ing never lowers a non-negative value). */
  function NearestPowerOfTwo(cap: int): (r: int)
    requires IsInt64(cap)
    ensures 1 <= r <= MaximumCapacity
    ensures MinInt64 < cap <= 0 ==> r == 1
    ensures cap == MinInt64 || cap > MaximumCapacity ==> r == MaximumCapacity
  {
    var n := Wrap64(cap - 1);
    if n < 0 then 1
    else
      var m := FillBelow(n);
      if m >= MaximumCapacity then MaximumCapacity else m + 1
  }

  /** Of two powers of two, the smaller is at most half the larger. */
  lemma {:induction false} PowerGap(p: int, q: int)
    requires IsPowerOfTwo(p) && IsPowerOfTwo(q) && p < q
    ensures 2 * p <= q
    decreases q
  {
    if p > 1 {
      PowerGap(p / 2, q / 2);
    }
  }

  lemma {:induction false} PowerIsPowerOfTwo(k: nat)
    ensures IsPowerOfTwo(Power(2, k))
  {
    if k > 0 {
      PowerIsPowerOfTwo(k - 1);
      assert Power(2, k) / 2 == Power(2, k - 1);
    }
  }

  lemma CapacityIsPowerOfTwo()
    ensures IsPowerOfTwo(MaximumCapacity)
  {
    TwoPowers();
    PowerIsPowerOfTwo(30);
    assert Power(2, 31) == 2 * Power(2, 30);
  }

  /** For a capacity from 1 to 2^30 the answer is the least power of two
      not below it. */
  lemma NearestPowerOfTwoIsLeast(cap: int)
    requires 1 <= cap <= MaximumCapacity
    ensures var r := NearestPowerOfTwo(cap);
      IsPowerOfTwo(r) && cap <= r
      && forall p :: IsPowerOfTwo(p) && p >= cap ==> p >= r
  {
    var r := NearestIsFill(cap);
    forall p | IsPowerOfTwo(p) && p >= cap
      ensures p >= r
    {
      if p < r {
        PowerGap(p, r);
      }
    }
  }

  /** In range, the cascade's result plus one is already the answer: it
      never exceeds 2^30. */
  lemma NearestIsFill(cap: int) returns (r: int)
    requires 1 <= cap <= MaximumCapacity
    ensures r == NearestPowerOfTwo(cap) == FillBelow(cap - 1) + 1
    ensures IsPowerOfTwo(r) && cap <= r
  {
    var m := FillBelow(cap - 1);
    assert Wrap64(cap - 1) == cap - 1;
    if m + 1 > MaximumCapacity {
      CapacityIsPowerOfTwo();
      PowerGap(MaximumCapacity, m + 1);
    }
    r := m + 1;
  }

  // ---------------------------------------------------------------------
  // UUIdV4
  // ---------------------------------------------------------------------

  type Byte = x: int | 0 <= x < 256

  /** The two assignments of random.go:318-319: `b &^ 0xc0 | 0x80` keeps
      the low six bits and sets the top two to 10 (the variant), and
      `b &^ 0xf0 | 0x40` keeps the low nibble and sets the high one to 4
      (the version). */
  function SetVersion(raw: seq<Byte>): (u: seq<Byte>)
    requires |raw| == 16
    ensures |u| == 16
    ensures u[6] / 16 == 4 && u[6] % 16 == raw[6] % 16
    ensures u[8] / 64 == 2 && u[8] % 64 == raw[8] % 64
    ensures forall i :: 0 <= i < 16 && i != 6 && i != 8 ==> u[i] == raw[i]
  {
    var v := raw[8 := raw[8] % 64 + 0x80];
    v[6 := v[6] % 16 + 0x40]
  }

  /** `%x` of one byte: two lower-case hex digits. */
  function HexByte(b: Byte): (h: string)
    ensures |h| == 2
  {
    [DigitChar(b / 16), DigitChar(b % 16)]
  }

  /** `%x` of a byte slice. */
  function HexBytes(bs: seq<Byte>): (h: string)
    ensures |h| == 2 * |bs|
    ensures forall i :: 0 <= i < |bs| ==> h[2 * i] == DigitChar(bs[i] / 16) && h[2 * i + 1] == DigitChar(bs[i] % 16)
  {
    if |bs| == 0 then ""
    else
      var rest := HexBytes(bs[1..]);
      HexCons(bs, rest);
      HexByte(bs[0]) + rest
  }

  /** Putting the first byte's two digits in front of the digits of the
      others gives the digits of all. */
  lemma HexCons(bs: seq<Byte>, rest: string)
    requires |bs| > 0 && |rest| == 2 * (|bs| - 1)
    requires forall i :: 0 <= i < |bs| - 1 ==> rest[2 * i] == DigitChar(bs[1..][i] / 16) && rest[2 * i + 1] == DigitChar(bs[1..][i] % 16)
    ensures var h := HexByte(bs[0]) + rest;
      forall i :: 0 <= i < |bs| ==> h[2 * i] == DigitChar(bs[i] / 16) && h[2 * i + 1] == DigitChar(bs[i] % 16)
  {
    var h := HexByte(bs[0]) + rest;
    forall i | 0 <= i < |bs|
      ensures h[2 * i] == DigitChar(bs[i] / 16) && h[2 * i + 1] == DigitChar(bs[i] % 16)
    {
      if i > 0 {
        assert bs[i] == bs[1..][i - 1];
        assert h[2 * i] == rest[2 * (i - 1)] && h[2 * i + 1] == rest[2 * (i - 1) + 1];
      }
    }
  }

  lemma {:induction false} HexBytesAppend(a: seq<Byte>, b: seq<Byte>)
    ensures HexBytes(a + b) == HexBytes(a) + HexBytes(b)
  {
    if |a| == 0 {
      assert a + b == b;
    } else {
      assert (a + b)[1..] == a[1..] + b;
      assert (a + b)[0] == a[0];
      HexBytesAppend(a[1..], b);
    }
  }

  /** Reading hex digit pairs back into bytes. */
  function HexDecode(h: string): seq<Byte>
    requires |h| % 2 == 0 && IsDigitsIn(h, 16)
  {
    if |h| == 0 then []
    else [DigitValue(h[0]) * 16 + DigitValue(h[1])] + HexDecode(h[2..])
  }

  /** The hex text of bytes reads back as the same bytes. */
  lemma {:induction false} HexRoundTrip(bs: seq<Byte>)
    ensures IsDigitsIn(HexBytes(bs), 16) && HexDecode(HexBytes(bs)) == bs
  {
    if |bs| > 0 {
      var h := HexBytes(bs);
      HexRoundTrip(bs[1..]);
      assert h == HexByte(bs[0]) + HexBytes(bs[1..]);
      assert h[2..] == HexBytes(bs[1..]);
      assert DigitValue(h[0]) * 16 + DigitValue(h[1]) == bs[0];
    }
  }

  /** The 8-4-4-4-12 layout of random.go:321. */
  function UuidText(u: seq<Byte>): (s: string)
    requires |u| == 16
  {
    Dashed(Dashed(Dashed(Dashed(HexBytes(u[..4]), HexBytes(u[4..6])), HexBytes(u[6..8])), HexBytes(u[8..10])), HexBytes(u[10..]))
  }

  /** Two texts joined by a dash. */
  function Dashed(x: string, y: string): (r: string)
    ensures |r| == |x| + 1 + |y| && r[..|x|] == x && r[|x|] == '-' && r[|x| + 1..] == y
  {
    x + "-" + y
  }

  /** A window inside a known prefix is the same window of the prefix. */
  lemma InPrefix(s: string, n: nat, t: string, i: nat, j: nat)
    requires n <= |s| && s[..n] == t && i <= j <= n
    ensures s[i..j] == t[i..j]
  {
    forall k | 0 <= k < j - i
      ensures s[i..j][k] == t[i..j][k]
    {
      assert s[i + k] == s[..n][i + k];
    }
  }

  /** `UUIdV4` (random.go:310-322): a failed read of the sixteen random
      bytes is an error; otherwise the bytes get their version and variant
      bits and are written out. */
  function UUIdV4(read: Option<seq<Byte>>): (r: Result<string>)
    requires read.Some? ==> |read.value| == 16
    ensures r.Ok? <==> read.Some?
    ensures r.Ok? ==>
      && |r.value| == 36
      && r.value[8] == '-' && r.value[13] == '-' && r.value[18] == '-' && r.value[23] == '-'
      && r.value[14] == '4' && r.value[19] in "89ab"
  {
    match read
    case None => Err("short read")
    case Some(raw) =>
      UuidLayout(SetVersion(raw));
      UuidVersionDigits(raw);
      Ok(UuidText(SetVersion(raw)))
  }

  /** Where the five groups and the four dashes sit in the text. */
  lemma UuidParts(u: seq<Byte>)
    requires |u| == 16
    ensures var s := UuidText(u);
      |s| == 36
      && s[8] == '-' && s[13] == '-' && s[18] == '-' && s[23] == '-'
      && s[..8] == HexBytes(u[..4]) && s[9..13] == HexBytes(u[4..6]) && s[14..18] == HexBytes(u[6..8])
      && s[19..23] == HexBytes(u[8..10]) && s[24..] == HexBytes(u[10..])
  {
    var a, b, c, d, e := HexBytes(u[..4]), HexBytes(u[4..6]), HexBytes(u[6..8]), HexBytes(u[8..10]), HexBytes(u[10..]);
    var t1 := Dashed(a, b);
    var t2 := Dashed(t1, c);
    var t3 := Dashed(t2, d);
    var s := Dashed(t3, e);
    InPrefix(s, 23, t3, 0, 18);
    InPrefix(s, 23, t3, 19, 23);
    InPrefix(t3, 18, t2, 0, 13);
    InPrefix(t3, 18, t2, 14, 18);
    InPrefix(t2, 13, t1, 0, 8);
    InPrefix(t2, 13, t1, 9, 13);
    InPrefix(s, 18, t2, 0, 13);
    InPrefix(s, 18, t2, 14, 18);
    InPrefix(s, 13, t1, 0, 8);
    InPrefix(s, 13, t1, 9, 13);
    assert s[..18] == t2 && s[..13] == t1;
    assert s[8] == t1[8] && s[13] == t2[13] && s[18] == t3[18];
  }

  /** The text is 36 characters: lower-case hex digits with dashes after
      the 8th, 12th, 16th and 20th digit. */
  lemma UuidLayout(u: seq<Byte>)
    requires |u| == 16
    ensures var s := UuidText(u);
      |s| == 36
      && s[8] == '-' && s[13] == '-' && s[18] == '-' && s[23] == '-'
      && forall i :: 0 <= i < 36 && i != 8 && i != 13 && i != 18 && i != 23 ==> Convertor.IsLowerHex(s[i])
  {
    var s := UuidText(u);
    UuidParts(u);
    HexLower(u[..4]);
    HexLower(u[4..6]);
    HexLower(u[6..8]);
    HexLower(u[8..10]);
    HexLower(u[10..]);
    forall i | 0 <= i < 36 && i != 8 && i != 13 && i != 18 && i != 23
      ensures Convertor.IsLowerHex(s[i])
    {
      if i < 8 {
        assert s[i] == s[..8][i];
      } else if i < 13 {
        assert s[i] == s[9..13][i - 9];
      } else if i < 18 {
        assert s[i] == s[14..18][i - 14];
      } else if i < 23 {
        assert s[i] == s[19..23][i - 19];
      } else {
        assert s[i] == s[24..][i - 24];
      }
    }
  }

  /** In the text of a version 4 UUID the version digit is '4' and the
      variant digit is one of 8, 9, a and b. */
  lemma UuidVersionDigits(raw: seq<Byte>)
    requires |raw| == 16
    ensures var s := UuidText(SetVersion(raw)); s[14] == '4' && s[19] in "89ab"
  {
    var u := SetVersion(raw);
    var s := UuidText(u);
    UuidParts(u);
    assert s[14] == s[14..18][0] == DigitChar(u[6] / 16);
    assert s[19] == s[19..23][0] == DigitChar(u[8] / 16);
    var v := u[8] / 16;
    assert 8 <= v < 12;
    VariantDigit(v);
  }

  /** The high nibbles 8 to 11 print as 8, 9, a and b. */
  lemma VariantDigit(v: int)
    requires 8 <= v < 12
    ensures DigitChar(v) in "89ab"
  {
    if v == 8 {
      assert DigitChar(v) == "89ab"[0];
    } else if v == 9 {
      assert DigitChar(v) == "89ab"[1];
    } else if v == 10 {
      assert DigitChar(v) == "89ab"[2];
    } else {
      assert DigitChar(v) == "89ab"[3];
    }
  }

  /** Hex text of bytes is lower-case hex digits. */
  lemma HexLower(bs: seq<Byte>)
    ensures forall k :: 0 <= k < |HexBytes(bs)| ==> Convertor.IsLowerHex(HexBytes(bs)[k])
  {
    var h := HexBytes(bs);
    forall k | 0 <= k < |h|
      ensures Convertor.IsLowerHex(h[k])
    {
      var i := k / 2;
      assert k == 2 * i || k == 2 * i + 1;
      Convertor.FormatLowerHex(0);
      assert Convertor.IsLowerHex(DigitChar(bs[i] / 16)) && Convertor.IsLowerHex(DigitChar(bs[i] % 16));
    }
  }

  /** Dropping the dashes and reading the hex back gives the bytes with
      their version and variant bits. */
  lemma UuidRoundTrip(raw: seq<Byte>)
    requires |raw| == 16
    ensures var u := SetVersion(raw); var s := UuidText(u);
      IsDigitsIn(s[..8] + s[9..13] + s[14..18] + s[19..23] + s[24..], 16)
      && HexDecode(s[..8] + s[9..13] + s[14..18] + s[19..23] + s[24..]) == u
  {
    var u := SetVersion(raw);
    var s := UuidText(u);
    var a, b, c, d, e := u[..4], u[4..6], u[6..8], u[8..10], u[10..];
    UuidParts(u);
    HexFive(a, b, c, d, e);
    SplitFive(u);
    HexRoundTrip(u);
  }

  /** The hex text of five pieces laid end to end is the hex text of the
      whole. */
  lemma HexFive(a: seq<Byte>, b: seq<Byte>, c: seq<Byte>, d: seq<Byte>, e: seq<Byte>)
    ensures HexBytes(a) + HexBytes(b) + HexBytes(c) + HexBytes(d) + HexBytes(e) == HexBytes(a + b + c + d + e)
  {
    HexBytesAppend(a, b);
    HexBytesAppend(a + b, c);
    HexBytesAppend(a + b + c, d);
    HexBytesAppend(a + b + c + d, e);
  }

  /** The five UUID groups laid end to end are the sixteen bytes. */
  lemma SplitFive(u: seq<Byte>)
    requires |u| == 16
    ensures u[..4] + u[4..6] + u[6..8] + u[8..10] + u[10..] == u
  {
  }
}
