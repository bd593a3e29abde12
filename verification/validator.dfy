/**
  The string and byte validators of `validator/validator.go`: ASCII, port
  and integer text, the binary, hexadecimal and base64url patterns, JSON
  Web Token shape, GBK byte structure and the Chinese resident identity
  number (GB 11643-1999, check digit by ISO 7064 MOD 11-2).

  Each regular expression is written out as the alternatives it lists;
  Go's regular expressions have no back-references, so a pattern matches
  exactly the strings its alternatives describe. The wall clock is a
  parameter: `today` is the date of `time.Now()` in UTC.
 */
module Validator {
  import opened Wrappers
  import opened NumText
  import opened Text
  import StrWords
  import StrUtil
  import DateUtil
  import Convertor

  // ---------------------------------------------------------------------
  // ASCII, integers and ports
  // ---------------------------------------------------------------------

  /** `IsASCII` (validator.go:110-117). Go compares the bytes of the UTF-8
      encoding with 127; every byte of a character above 127 is itself
      above 127, so comparing the characters gives the same answer. */
  method IsASCII(str: string) returns (ok: bool)
    ensures ok <==> forall i :: 0 <= i < |str| ==> str[i] as int <= 127
  {
    for i := 0 to |str|
      invariant forall j :: 0 <= j < i ==> str[j] as int <= 127
    {
      if str[i] as int > 127 {
        return false;
      }
    }
    return true;
  }

  predicate AllDigits(s: string) {
    forall i :: 0 <= i < |s| ==> StrWords.IsDigit(s[i])
  }

  /** `IsIntStr` (validator.go:175-177): the pattern `^[\+-]?\d+$`. It
      accepts exactly the decimal numerals `strconv.ParseInt` reads. */
  function IsIntStr(str: string): (b: bool)
    ensures b <==> IsNumeral(str, 10)
  {
    (|str| >= 1 && AllDigits(str))
    || (|str| >= 2 && (str[0] == '+' || str[0] == '-') && AllDigits(str[1..]))
  }

  /** `IsPort` (validator.go:215-220): a decimal integer from 1 to 65535,
      signs and leading zeros allowed. */
  function IsPort(str: string): (b: bool)
    ensures b <==> IsIntStr(str) && 0 < SignedValue(str, 10) < 65536
  {
    TwoPowers();
    var v := ParseInt(str, 10, 64);
    v.Some? && 0 < v.value < 65536
  }

  /** Every port number written in decimal is a port. */
  lemma PortFormatted(n: int)
    requires 0 < n < 65536
    ensures IsPort(FormatInt(n, 10))
  {
    FormatIntParses(n, 10);
  }

  // ---------------------------------------------------------------------
  // Binary and hexadecimal text
  // ---------------------------------------------------------------------

  /** `IsBin` (validator.go:434-436): the pattern `^(0b)?[01]+$`. The
      prefix is taken whenever it is there; the contract states both
      readings of the optional group. */
  function IsBin(v: string): (b: bool)
    ensures b <==> ((|v| >= 1 && IsDigitsIn(v, 2))
      || (HasPrefix(v, "0b") && |v| >= 3 && IsDigitsIn(v[2..], 2)))
  {
    var body := TrimPrefix(v, "0b");
    assert HasPrefix(v, "0b") ==> DigitValue(v[1]) >= 2;
    |body| >= 1 && IsDigitsIn(body, 2)
  }

  /** Binary numbers as `FormatInt` writes them match, with or without
      the prefix. */
  lemma BinFormatted(n: nat)
    ensures IsBin(Format(n, 2)) && IsBin("0b" + Format(n, 2))
  {
    var s := "0b" + Format(n, 2);
    assert HasPrefix(s, "0b") && s[2..] == Format(n, 2);
  }

  /** `IsHex` (validator.go:439-441): the pattern
      `^(#|0x|0X)?[0-9a-fA-F]+$`. */
  function IsHex(v: string): (b: bool)
    ensures b <==> ((|v| >= 1 && IsDigitsIn(v, 16))
      || (HasPrefix(v, "#") && |v| >= 2 && IsDigitsIn(v[1..], 16))
      || (HasPrefix(v, "0x") && |v| >= 3 && IsDigitsIn(v[2..], 16))
      || (HasPrefix(v, "0X") && |v| >= 3 && IsDigitsIn(v[2..], 16)))
  {
    var body :=
      if HasPrefix(v, "#") then v[1..]
      else if HasPrefix(v, "0x") || HasPrefix(v, "0X") then v[2..]
      else v;
    assert HasPrefix(v, "#") ==> DigitValue(v[0]) >= 16;
    assert HasPrefix(v, "0x") || HasPrefix(v, "0X") ==> DigitValue(v[1]) >= 16;
    |body| >= 1 && IsDigitsIn(body, 16)
  }

  /** What `ColorRGBToHex` writes and what `FormatInt` writes in base 16
      are hexadecimal text. */
  lemma HexFormatted(red: int, green: int, blue: int, n: nat)
    requires 0 <= red < 256 && 0 <= green < 256 && 0 <= blue < 256
    ensures IsHex(Convertor.ColorRGBToHex(red, green, blue))
    ensures IsHex(Format(n, 16)) && IsHex("0x" + Format(n, 16))
  {
    var h := Convertor.ColorRGBToHex(red, green, blue);
    assert HasPrefix(h, "#");
    forall i | 0 <= i < |h[1..]|
      ensures DigitValue(h[1..][i]) < 16
    {
      assert h[1..][i] == h[i + 1];
      assert Convertor.IsLowerHex(h[i + 1]);
    }
    var s := "0x" + Format(n, 16);
    assert HasPrefix(s, "0x") && s[2..] == Format(n, 16);
  }

  // ---------------------------------------------------------------------
  // base64url and JSON Web Tokens
  // ---------------------------------------------------------------------

  /** `[A-Za-z0-9_-]`. */
  predicate IsUrlChar(c: char) {
    StrWords.IsAlnum(c) || c == '_' || c == '-'
  }

  predicate AllUrl(s: string) {
    forall i :: 0 <= i < |s| ==> IsUrlChar(s[i])
  }

  /** The optional last group of the base64url pattern:
      `([A-Za-z0-9_-]{2}(==)?|[A-Za-z0-9_-]{3}=?)?`. */
  predicate Base64Tail(t: string) {
    |t| == 0
    || (|t| == 2 && AllUrl(t))
    || (|t| == 4 && AllUrl(t[..2]) && t[2] == '=' && t[3] == '=')
    || (|t| == 3 && AllUrl(t))
    || (|t| == 4 && AllUrl(t[..3]) && t[3] == '=')
  }

  /** Unpadded base64url text of any length but one more than a multiple
      of four, or a multiple of four ending in one or two '='. */
  predicate Base64Shape(v: string) {
    Unpadded(v) || OnePad(v) || TwoPad(v)
  }

  predicate Unpadded(v: string) {
    AllUrl(v) && |v| % 4 != 1
  }

  predicate OnePad(v: string) {
    |v| % 4 == 0 && |v| >= 4 && v[|v| - 1] == '=' && AllUrl(v[..|v| - 1])
  }

  predicate TwoPad(v: string) {
    |v| % 4 == 0 && |v| >= 4 && v[|v| - 2] == '=' && v[|v| - 1] == '=' && AllUrl(v[..|v| - 2])
  }

  /** `IsBase64URL` (validator.go:444-446): the pattern
      `^([A-Za-z0-9_-]{4})*` followed by the optional last group, read
      one group of four at a time. */
  function IsBase64URL(v: string): (b: bool)
    ensures b <==> Base64Shape(v)
    decreases |v|
  {
    var quads := |v| >= 4 && AllUrl(v[..4]) && IsBase64URL(v[4..]);
    if |v| >= 4 then
      ModShift(|v|, 4);
      QuadSplit(v);
      Base64Tail(v) || quads
    else
      Base64Tail(v)
  }

  /** A group of four in front changes neither the characters allowed nor
      the length modulo four. */
  lemma QuadSplit(v: string)
    requires |v| >= 4 && (|v| - 4) % 4 == |v| % 4
    ensures Base64Tail(v) ==> Base64Shape(v)
    ensures AllUrl(v[..4]) && Base64Shape(v[4..]) ==> Base64Shape(v)
    ensures Base64Shape(v) && !Base64Tail(v) ==> AllUrl(v[..4]) && Base64Shape(v[4..])
  {
    QuadTail(v);
    var q, w := v[..4], v[4..];
    assert v == q + w;
    AllUrlJoin(q, w);
    if |w| >= 1 {
      DropJoin(q, w, 1);
    }
    if |w| >= 2 {
      DropJoin(q, w, 2);
      PaddedSplit(v);
    }
  }

  /** A last group of four is padded base64url text. */
  lemma QuadTail(v: string)
    requires |v| >= 4
    ensures Base64Tail(v) ==> Base64Shape(v)
    ensures |v| == 4 && (OnePad(v) || TwoPad(v)) ==> Base64Tail(v)
  {
  }

  /** With a group of four in front, each padded shape holds of the whole
      exactly when it holds of the rest. */
  lemma PaddedSplit(v: string)
    requires |v| >= 6 && (|v| - 4) % 4 == |v| % 4
    requires AllUrl(v[..|v| - 1]) <==> AllUrl(v[..4]) && AllUrl(v[4..][..|v| - 5])
    requires AllUrl(v[..|v| - 2]) <==> AllUrl(v[..4]) && AllUrl(v[4..][..|v| - 6])
    ensures OnePad(v) <==> AllUrl(v[..4]) && OnePad(v[4..])
    ensures TwoPad(v) <==> AllUrl(v[..4]) && TwoPad(v[4..])
  {
    var w := v[4..];
    assert w[|w| - 1] == v[|v| - 1];
    assert w[|w| - 2] == v[|v| - 2];
  }

  /** Dropping `k` characters from the back of a join drops them from its
      back part. */
  lemma DropJoin(q: string, w: string, k: nat)
    requires k <= |w|
    ensures (q + w)[..|q + w| - k] == q + w[..|w| - k]
    ensures AllUrl((q + w)[..|q + w| - k]) <==> AllUrl(q) && AllUrl(w[..|w| - k])
  {
    assert (q + w)[..|q + w| - k] == q + w[..|w| - k];
    AllUrlJoin(q, w[..|w| - k]);
  }

  /** A join is base64url text exactly when both of its parts are. */
  lemma AllUrlJoin(a: string, b: string)
    ensures AllUrl(a + b) <==> AllUrl(a) && AllUrl(b)
  {
    if AllUrl(a + b) {
      forall i | 0 <= i < |a| ensures IsUrlChar(a[i]) {
        assert (a + b)[i] == a[i];
      }
      forall i | 0 <= i < |b| ensures IsUrlChar(b[i]) {
        assert (a + b)[|a| + i] == b[i];
      }
    }
  }

  /** `IsJWT` (validator.go:449-462): exactly three '.'-separated parts,
      each base64url text. A JWT holds exactly two dots. */
  function IsJWT(v: string): (b: bool)
    ensures b ==> multiset(v)['.'] == 2
  {
    var parts := StrUtil.SplitEx(v, ".", false);
    if |parts| == 3 then
      var ok := IsBase64URL(parts[0]) && IsBase64URL(parts[1]) && IsBase64URL(parts[2]);
      if ok then
        NoDotPiece(parts[0]);
        NoDotPiece(parts[1]);
        NoDotPiece(parts[2]);
        assert parts[1..][1..] == [parts[2]];
        assert Join(parts[1..], ".") == parts[1] + "." + parts[2];
        assert v == parts[0] + "." + (parts[1] + "." + parts[2]);
        true
      else false
    else false
  }

  /** A piece holds no '.'. */
  lemma NoDotPiece(p: string)
    requires Index(p, ".") == -1
    ensures multiset(p)['.'] == 0
  {
    if '.' in p {
      var j :| 0 <= j < |p| && p[j] == '.';
      assert p[j..j + 1] == ".";
      assert OccursAt(p, ".", j);
    }
  }

  /** The first '.' of `x + "." + y` is the one after `x`. */
  lemma SplitAtDot(x: string, y: string)
    requires '.' !in x
    ensures StrUtil.Pieces(x + "." + y, ".", false) == [x] + StrUtil.Pieces(y, ".", false)
  {
    var s := x + "." + y;
    assert OccursAt(s, ".", |x|) by {
      assert s[|x|..|x| + 1] == ".";
    }
    forall j | 0 <= j < |x|
      ensures !OccursAt(s, ".", j)
    {
      assert s[j] == x[j];
      assert s[j..j + 1] == [x[j]];
    }
    assert Index(s, ".") == |x|;
    assert s[..|x|] == x;
    assert s[|x| + 1..] == y;
  }

  /** Text without '.' is a single piece. */
  lemma NoDotSingle(x: string)
    requires '.' !in x
    ensures StrUtil.Pieces(x, ".", false) == [x]
  {
    forall j | 0 <= j <= |x|
      ensures !OccursAt(x, ".", j)
    {
      if OccursAt(x, ".", j) {
        assert false;
      }
    }
  }

  /** Three dot-free parts joined by dots form a JWT exactly when each
      part is base64url text. */
  lemma JwtParts(a: string, b: string, c: string)
    requires '.' !in a && '.' !in b && '.' !in c
    ensures IsJWT(a + "." + b + "." + c) <==> IsBase64URL(a) && IsBase64URL(b) && IsBase64URL(c)
  {
    ThreePieces(a, b, c);
  }

  /** Three empty parts are base64url text, so ".." is a JWT. */
  lemma JwtEmptyParts()
    ensures IsJWT("..")
  {
    JwtParts("", "", "");
    assert "" + "." + "" + "." + "" == "..";
  }

  /** Splitting three dot-free parts joined by dots gives them back. */
  lemma ThreePieces(a: string, b: string, c: string)
    requires '.' !in a && '.' !in b && '.' !in c
    ensures StrUtil.SplitEx(a + "." + b + "." + c, ".", false) == [a, b, c]
  {
    var v := a + "." + b + "." + c;
    assert v == a + "." + (b + "." + c);
    SplitAtDot(a, b + "." + c);
    SplitAtDot(b, c);
    NoDotSingle(c);
    assert [b] + [c] == [b, c];
  }

  // ---------------------------------------------------------------------
  // GBK
  // ---------------------------------------------------------------------

  type Byte = bv8

  predicate IsGbkLead(b: Byte) {
    0x81 <= b <= 0xfe
  }

  predicate IsGbkTrail(b: Byte) {
    0x40 <= b <= 0xfe && b != 0xf7
  }

  /** Bytes that split into GBK units: an ASCII byte, or a lead byte
      0x81-0xFE followed by a trail byte 0x40-0xFE other than 0xF7. */
  predicate GbkText(data: seq<Byte>)
    decreases |data|
  {
    |data| == 0
    || (data[0] <= 0x7f && GbkText(data[1..]))
    || (|data| >= 2 && IsGbkLead(data[0]) && IsGbkTrail(data[1]) && GbkText(data[2..]))
  }

  /** The scan of `IsGBK` as written (validator.go:387-408), from
      position `i`: the first test, `data[i] <= 0xff`, holds for every
      byte, so each byte is skipped alone and the two-byte branch is
      never reached. */
  function GbkScanAsWritten(data: seq<Byte>, i: nat): (ok: bool)
    ensures ok
    decreases |data| - i
  {
    if i >= |data| then true
    else if data[i] <= 0xff then GbkScanAsWritten(data, i + 1)
    else assert false; false
  }

  function IsGBKAsWritten(data: seq<Byte>): (ok: bool)
    ensures ok
  {
    GbkScanAsWritten(data, 0)
  }

  /** Bytes that are no GBK text, accepted as written: two 0xFF bytes, and
      a lone lead byte. */
  lemma GbkAsWrittenAcceptsAll()
    ensures IsGBKAsWritten([0xff, 0xff]) && !GbkText([0xff, 0xff])
    ensures IsGBKAsWritten([0x81]) && !GbkText([0x81])
  {
    var a: seq<Byte> := [0xff, 0xff];
    var b: seq<Byte> := [0x81];
    assert !GbkText(b);
  }

  /** `IsGBK` with the single-byte test at 0x7F, as the two-byte branch
      requires, and a lead byte at the end rejected instead of read past
      the end. */
  method IsGBK(data: seq<Byte>) returns (ok: bool)
    ensures ok <==> GbkText(data)
  {
    var i := 0;
    while i < |data|
      invariant 0 <= i <= |data|
      invariant GbkText(data) <==> GbkText(data[i..])
      decreases |data| - i
    {
      var rest := data[i..];
      if data[i] <= 0x7f {
        assert rest[1..] == data[i + 1..];
        i := i + 1;
      } else if i + 1 < |data| && IsGbkLead(data[i]) && IsGbkTrail(data[i + 1]) {
        assert rest[2..] == data[i + 2..];
        i := i + 2;
      } else {
        assert !GbkText(rest);
        return false;
      }
    }
    return true;
  }

  // ---------------------------------------------------------------------
  // Chinese resident identity numbers
  // ---------------------------------------------------------------------

  /** The weights of the first 17 digits (validator.go:43). */
  const Factor: seq<int> := [7, 9, 10, 5, 8, 4, 2, 1, 6, 3, 7, 9, 10, 5, 8, 4, 2]

  /** The check character for each remainder (validator.go:44). */
  const VerifyStr: string := "10X98765432"

  const BirthStartYear := 1900

  /** The keys of `provinceKv` (validator.go:46-82). */
  const Provinces: set<string> := {
    "11", "12", "13", "14", "15", "21", "22", "23",
    "31", "32", "33", "34", "35", "36", "37",
    "41", "42", "43", "44", "45", "46", "50", "51", "52", "53", "54",
    "61", "62", "63", "64", "65"
  }

  /** The pattern `^(\d{17})([0-9]|X|x)$`. */
  predicate IdShape(id: string) {
    |id| == 18 && IsDigitsIn(id[..17], 10)
    && (DigitValue(id[17]) < 10 || id[17] == 'X' || id[17] == 'x')
  }

  /** Digits `from` to `to` of an ID-shaped string, as a number. */
  function IdField(id: string, from: nat, to: nat): nat
    requires IdShape(id) && from <= to <= 17
  {
    assert IsDigitsIn(id[from..to], 10) by {
      forall k | 0 <= k < to - from
        ensures DigitValue(id[from..to][k]) < 10
      {
        assert id[from..to][k] == id[..17][from + k];
      }
    }
    Value(id[from..to], 10)
  }

  /** The birth date in positions 7-14, read by `time.Parse` with layout
      "2006-01-02" (validator.go:268-269), at midnight. */
  function Birth(id: string): DateUtil.DateTime
    requires IdShape(id)
  {
    DateUtil.DateTime(IdField(id, 6, 10), IdField(id, 10, 12), IdField(id, 12, 14), 0, 0, 0, 0)
  }

  /** The value of a decimal digit: `strconv.Atoi` of one character. */
  function Digit(c: char): int {
    DigitValue(c)
  }

  /** The weighted digit sum of the first `n` digits (validator.go:273-277). */
  function FactorSum(id: string, n: nat): int
    requires n <= 17 && |id| >= 17
  {
    if n == 0 then 0 else FactorSum(id, n - 1) + Digit(id[n - 1]) * Factor[n - 1]
  }

  /** The recursive method of ISO 7064 MOD 11-2 over the first `n`
      digits: P(0) = 0 and P(j + 1) = 2 * (P(j) + a(j)) mod 11. */
  function IsoPartial(id: string, n: nat): (p: int)
    requires n <= 17 && |id| >= 17
    ensures 0 <= p < 11
  {
    if n == 0 then 0 else ((IsoPartial(id, n - 1) + Digit(id[n - 1])) * 2) % 11
  }

  /** The value of the check character: 'X' stands for 10. */
  function CheckValue(c: char): int {
    if c == 'X' || c == 'x' then 10 else Digit(c)
  }

  /** ISO 7064 MOD 11-2: the check character completes the remainder 1. */
  predicate Mod11Check(id: string)
    requires |id| == 18
  {
    (IsoPartial(id, 17) + CheckValue(id[17])) % 11 == 1
  }

  /** `IsChineseIdNum` (validator.go:258-280) on the date `today`: the
      pattern, a known province, a real birth date from 1900 that is not
      after today, and the ISO 7064 MOD 11-2 check character. */
  function IsChineseIdNum(id: string, today: DateUtil.DateTime): (b: bool)
    ensures b <==> (IdShape(id) && id[..2] in Provinces
      && DateUtil.ValidDate(Birth(id)) && !DateUtil.DateAfter(Birth(id), today)
      && Birth(id).year >= BirthStartYear
      && Mod11Check(id))
  {
    if !IdShape(id) || id[..2] !in Provinces then false
    else
      var birth := Birth(id);
      if !DateUtil.ValidDate(birth) || DateUtil.DateAfter(birth, today) || birth.year < BirthStartYear then false
      else
        ChecksumIsIso(id);
        VerifyStr[FactorSum(id, 17) % 11] == StrWords.ToUpper(id[17])
  }

  /** The table lookup of the source is the ISO 7064 MOD 11-2 check. */
  lemma ChecksumIsIso(id: string)
    requires IdShape(id)
    ensures VerifyStr[FactorSum(id, 17) % 11] == StrWords.ToUpper(id[17]) <==> Mod11Check(id)
  {
    var s, p := FactorSum(id, 17), IsoPartial(id, 17);
    assert p == s % 11 by {
      IsoIsWeighted(id, 17);
      assert Weight(17) == 1;
    }
    CheckChar(s % 11, id[17]);
  }

  /** The weight of position `n`, with 1 for the check character. */
  function Weight(n: nat): int
    requires n <= 17
  {
    if n == 17 then 1 else Factor[n]
  }

  /** Each weight is twice the next one, modulo 11: the weights are the
      powers of 2 modulo 11 that ISO 7064 MOD 11-2 prescribes. */
  lemma WeightsArePowers(n: nat)
    requires n < 17
    ensures Weight(n) == (2 * Weight(n + 1)) % 11
  {
  }

  /** The Horner form and the weighted sum agree modulo 11. */
  lemma {:induction false} IsoIsWeighted(id: string, n: nat)
    requires n <= 17 && |id| >= 17
    ensures (IsoPartial(id, n) * Weight(n)) % 11 == FactorSum(id, n) % 11
  {
    if n > 0 {
      IsoIsWeighted(id, n - 1);
      var p, d := IsoPartial(id, n - 1), Digit(id[n - 1]);
      var w, w' := Weight(n - 1), Weight(n);
      var f := FactorSum(id, n - 1);
      WeightsArePowers(n - 1);
      IsoStep(p, d, w, w', f);
      assert FactorSum(id, n) == f + d * w;
    }
  }

  /** One step of the Horner form against one more weighted digit. */
  lemma IsoStep(p: int, d: int, w: int, w': int, f: int)
    requires w == (2 * w') % 11 && (p * w) % 11 == f % 11
    ensures ((((p + d) * 2) % 11) * w') % 11 == (f + d * w) % 11
  {
    var c := p + d;
    var x := c * 2;
    var lhs := ((x % 11) * w') % 11;
    assert lhs == (c * (2 * w')) % 11 by {
      ModMul(x, w');
      Regroup(c, w');
    }
    assert (c * (2 * w')) % 11 == (c * w) % 11 by {
      ModMul(2 * w', c);
      assert c * (2 * w') == 2 * w' * c;
    }
    assert (c * w) % 11 == (f + d * w) % 11 by {
      assert c * w == p * w + d * w;
      ModAdd(p * w, d * w);
      ModAdd(f, d * w);
    }
  }

  lemma Regroup(c: int, w: int)
    ensures c * 2 * w == c * (2 * w)
  {
  }

  lemma ModMul(x: int, c: int)
    ensures ((x % 11) * c) % 11 == (x * c) % 11
    ensures (c * (x % 11)) % 11 == (x * c) % 11
  {
    var q, r := x / 11, x % 11;
    assert x * c == (q * c) * 11 + r * c;
    var q2, r2 := (r * c) / 11, (r * c) % 11;
    assert x * c == (q * c + q2) * 11 + r2;
    GoInt.DivModUnique(x * c, 11, q * c + q2, r2);
  }

  lemma ModAdd(x: int, y: int)
    ensures ((x % 11) + y) % 11 == (x + y) % 11
  {
    var q, r := x / 11, x % 11;
    var q2, r2 := (r + y) / 11, (r + y) % 11;
    assert x + y == (q + q2) * 11 + r2;
    GoInt.DivModUnique(x + y, 11, q + q2, r2);
  }

  /** The check character for remainder `r` is the one whose value
      completes the remainder 1. */
  lemma CheckChar(r: int, c: char)
    requires 0 <= r < 11
    requires DigitValue(c) < 10 || c == 'X' || c == 'x'
    ensures VerifyStr[r] == StrWords.ToUpper(c) <==> (r + CheckValue(c)) % 11 == 1
  {
  }
}
