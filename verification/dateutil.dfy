/**
  The calendar arithmetic of `dateutil/time_utils.go` on explicit calendar
  fields. A `time.Time` is either a `DateTime` (year, month, day and time
  of day, in one fixed location) or, where only its order matters, an
  `Instant` counted in nanoseconds. Time zones, the wall clock and the
  layout engine of Go's `time` package are not modelled: formatting and
  parsing with a layout are parameters.
 */
module DateUtil {
  import opened Wrappers
  import opened GoInt
  import StrWords

  // ---------------------------------------------------------------------
  // Leap years and month lengths
  // ---------------------------------------------------------------------

  /** `IsLeapYear` (time_utils.go:273-275). Go's `%` truncates, but a
      remainder is zero under truncation exactly when it is zero here. */
  predicate IsLeapYear(year: int) {
    year % 4 == 0 && (year % 100 != 0 || year % 400 == 0)
  }

  /** The test with Go's truncating remainder, as the source writes it,
      agrees with the one above for every year, negative ones included. */
  lemma LeapYearGoRem(year: int)
    ensures IsLeapYear(year) <==>
      GoRem(year, 4) == 0 && (GoRem(year, 100) != 0 || GoRem(year, 400) == 0)
  {
    ZeroRem(year, 4);
    ZeroRem(year, 100);
    ZeroRem(year, 400);
  }

  /** A remainder is zero under truncation exactly when it is zero under
      Euclidean division. */
  lemma ZeroRem(a: int, b: int)
    requires b > 0
    ensures GoRem(a, b) == 0 <==> a % b == 0
  {
    if a < 0 {
      if a % b == 0 {
        DivModUnique(-a, b, -(a / b), 0);
      }
      if (-a) % b == 0 {
        DivModUnique(a, b, -((-a) / b), 0);
      }
    }
  }

  /** The Gregorian calendar repeats every 400 years. */
  lemma LeapCycle(year: int)
    ensures IsLeapYear(year + 400) == IsLeapYear(year)
  {
    ShiftMod(year, 4, 100);
    ShiftMod(year, 100, 4);
    ShiftMod(year, 400, 1);
  }

  /** Adding a multiple of `n` keeps the remainder modulo `n`. */
  lemma ShiftMod(x: int, n: int, k: int)
    requires n > 0 && n * k == 400
    ensures (x + 400) % n == x % n
  {
    var q, r := x / n, x % n;
    assert x == q * n + r;
    assert x + 400 == (q + k) * n + r;
    DivModUnique(x + 400, n, q + k, r);
  }

  /** The last day of `month` in `year`: what the code obtains as day 0 of
      the following month (time_utils.go:97, and the layout check of
      `time.Parse`). */
  function DaysIn(month: int, year: int): (n: int)
    requires 1 <= month <= 12
    ensures 28 <= n <= 31
    ensures month == 2 ==> (n == 29 <==> IsLeapYear(year))
  {
    if month == 2 then (if IsLeapYear(year) then 29 else 28)
    else if month == 4 || month == 6 || month == 9 || month == 11 then 30
    else 31
  }

  datatype DateTime = DateTime(year: int, month: int, day: int, hour: int, minute: int, second: int, nanosecond: int)

  /** A calendar date that `time.Date` keeps as given. */
  predicate ValidDate(t: DateTime) {
    1 <= t.month <= 12 && 1 <= t.day <= DaysIn(t.month, t.year)
  }

  /** The date fields compared in order: year, then month, then day. */
  predicate DateAfter(a: DateTime, b: DateTime) {
    a.year > b.year
    || (a.year == b.year && a.month > b.month)
    || (a.year == b.year && a.month == b.month && a.day > b.day)
  }

  // ---------------------------------------------------------------------
  // Safe month and year addition
  // ---------------------------------------------------------------------

  /** `AddMonthSafe` (time_utils.go:84-105): bring the month back into
      1..12 a year at a time, then clamp the day to that month's length,
      keeping the time of day. */
  method AddMonthSafe(t: DateTime, months: int) returns (r: DateTime)
    ensures 1 <= r.month <= 12
    ensures 12 * r.year + r.month == 12 * t.year + t.month + months
    ensures r.month == (t.month + months - 1) % 12 + 1
    ensures r.day == if t.day > DaysIn(r.month, r.year) then DaysIn(r.month, r.year) else t.day
    ensures (r.hour, r.minute, r.second, r.nanosecond) == (t.hour, t.minute, t.second, t.nanosecond)
    ensures t.day >= 1 ==> ValidDate(r)
  {
    var year := t.year;
    var month := t.month + months;
    while month > 12
      invariant 12 * year + month == 12 * t.year + t.month + months
      decreases month
    {
      month := month - 12;
      year := year + 1;
    }
    while month < 1
      invariant month <= 12
      invariant 12 * year + month == 12 * t.year + t.month + months
      decreases -month
    {
      month := month + 12;
      year := year - 1;
    }
    MonthIndex(t.month + months, year, month, t.year);
    var daysInMonth := DaysIn(month, year);
    var day := t.day;
    if day > daysInMonth {
      day := daysInMonth;
    }
    r := DateTime(year, month, day, t.hour, t.minute, t.second, t.nanosecond);
  }

  /** The normalised month is the total month count modulo 12. */
  lemma MonthIndex(m: int, year: int, month: int, y0: int)
    requires 1 <= month <= 12 && 12 * year + month == 12 * y0 + m
    ensures month == (m - 1) % 12 + 1
  {
    assert m - 1 == (year - y0) * 12 + (month - 1);
  }

  /** `AddYearSafe` (time_utils.go:108-119): 29 February becomes 28
      February in a year that is not a leap year; every other date keeps
      its month and day. */
  function AddYearSafe(t: DateTime, years: int): (r: DateTime)
    ensures r.year == t.year + years && r.month == t.month
    ensures r.day == t.day || (t.month == 2 && t.day == 29 && r.day == 28 && !IsLeapYear(r.year))
    ensures (r.hour, r.minute, r.second, r.nanosecond) == (t.hour, t.minute, t.second, t.nanosecond)
    ensures ValidDate(t) ==> ValidDate(r)
  {
    var year := t.year + years;
    var day := if t.month == 2 && t.day == 29 && !IsLeapYear(year) then 28 else t.day;
    DateTime(year, t.month, day, t.hour, t.minute, t.second, t.nanosecond)
  }

  /** Adding a year and taking it away again restores every date except
      29 February, which comes back as 28 February. */
  lemma AddYearBack(t: DateTime, years: int)
    requires ValidDate(t)
    ensures AddYearSafe(AddYearSafe(t, years), -years) == t
      || (t.month == 2 && t.day == 29 && AddYearSafe(AddYearSafe(t, years), -years) == t.(day := 28))
  {
  }

  // ---------------------------------------------------------------------
  // Instants
  // ---------------------------------------------------------------------

  /** A point in time, in nanoseconds since the Unix epoch. */
  type Instant = int

  const NanosPerSecond := 1_000_000_000

  /** `time.Time.Unix`: whole seconds, rounded down. */
  function Unix(t: Instant): int {
    t / NanosPerSecond
  }

  /** `BetweenSeconds` (time_utils.go:278-281): the difference of the two
      Unix times, which lies within a second of the exact difference. */
  function BetweenSeconds(t1: Instant, t2: Instant): (r: int)
    ensures t2 - t1 - NanosPerSecond < r * NanosPerSecond < t2 - t1 + NanosPerSecond
    ensures t1 == t2 ==> r == 0
  {
    var s1, s2 := Unix(t1), Unix(t2);
    assert s1 * NanosPerSecond <= t1 < s1 * NanosPerSecond + NanosPerSecond;
    assert s2 * NanosPerSecond <= t2 < s2 * NanosPerSecond + NanosPerSecond;
    assert (s2 - s1) * NanosPerSecond == s2 * NanosPerSecond - s1 * NanosPerSecond;
    s2 - s1
  }

  /** `Min` (time_utils.go:427-437): the earliest of the arguments. */
  function Min(t1: Instant, times: seq<Instant>): (m: Instant)
    ensures m == t1 || m in times
    ensures m <= t1 && forall i :: 0 <= i < |times| ==> m <= times[i]
  {
    if |times| == 0 then t1
    else
      var m := Min(t1, times[..|times| - 1]);
      if times[|times| - 1] < m then times[|times| - 1] else m
  }

  /** `Max` (time_utils.go:440-450): the latest of the arguments. */
  function Max(t1: Instant, times: seq<Instant>): (m: Instant)
    ensures m == t1 || m in times
    ensures m >= t1 && forall i :: 0 <= i < |times| ==> m >= times[i]
  {
    if |times| == 0 then t1
    else
      var m := Max(t1, times[..|times| - 1]);
      if times[|times| - 1] > m then times[|times| - 1] else m
  }

  /** `MaxMin` (time_utils.go:453-468): both in one pass, the same as
      `Max` and `Min` separately. */
  method MaxMin(t1: Instant, times: seq<Instant>) returns (maxTime: Instant, minTime: Instant)
    ensures maxTime == Max(t1, times) && minTime == Min(t1, times)
  {
    maxTime, minTime := t1, t1;
    for i := 0 to |times|
      invariant maxTime == Max(t1, times[..i]) && minTime == Min(t1, times[..i])
    {
      assert times[..i + 1][..i] == times[..i];
      if times[i] < minTime {
        minTime := times[i];
      }
      if times[i] > maxTime {
        maxTime := times[i];
      }
    }
    assert times[..|times|] == times;
  }

  // ---------------------------------------------------------------------
  // The layout table
  // ---------------------------------------------------------------------

  /** The table built by `init` (time_utils.go:12-37): format keys to Go
      layouts. */
  const TimeFormats: map<string, string> := map[
    "yyyy-mm-dd hh:mm:ss" := "2006-01-02 15:04:05",
    "yyyy-mm-dd hh:mm" := "2006-01-02 15:04",
    "yyyy-mm-dd hh" := "2006-01-02 15",
    "yyyy-mm-dd" := "2006-01-02",
    "yyyy-mm" := "2006-01",
    "mm-dd" := "01-02",
    "dd-mm-yy hh:mm:ss" := "02-01-06 15:04:05",
    "yyyy/mm/dd hh:mm:ss" := "2006/01/02 15:04:05",
    "yyyy/mm/dd hh:mm" := "2006/01/02 15:04",
    "yyyy/mm/dd hh" := "2006/01/02 15",
    "yyyy/mm/dd" := "2006/01/02",
    "yyyy/mm" := "2006/01",
    "mm/dd" := "01/02",
    "dd/mm/yy hh:mm:ss" := "02/01/06 15:04:05",
    "yyyymmdd" := "20060102",
    "mmddyy" := "010206",
    "yyyy" := "2006",
    "yy" := "06",
    "mm" := "01",
    "hh:mm:ss" := "15:04:05",
    "hh:mm" := "15:04",
    "mm:ss" := "04:05"
  ]

  /** The layout for a format key, looked up after lower-casing it. */
  function Layout(format: string): (r: Option<string>)
    ensures r.Some? <==> StrWords.Fold(format, false) in TimeFormats
    ensures r.Some? ==> r.value == TimeFormats[StrWords.Fold(format, false)]
  {
    var key := StrWords.Fold(format, false);
    if key in TimeFormats then Some(TimeFormats[key]) else None
  }

  /** The lookup ignores the case of the key. */
  lemma LayoutIgnoresCase(format: string)
    ensures Layout(StrWords.Fold(format, true)) == Layout(format)
  {
    var up := StrWords.Fold(format, true);
    assert StrWords.Fold(up, false) == StrWords.Fold(format, false) by {
      forall i | 0 <= i < |format|
        ensures StrWords.Fold(up, false)[i] == StrWords.Fold(format, false)[i]
      {
        StrWords.CaseRoundTrip(format[i]);
      }
    }
  }

  /** `FormatTimeToStr` without a time zone (time_utils.go:159-172): an
      unknown format key gives ""; otherwise `render` applies the layout. */
  function FormatTimeToStr(t: Instant, format: string, render: (Instant, string) -> string): (r: string)
    ensures Layout(format).None? ==> r == ""
    ensures Layout(format).Some? ==> r == render(t, Layout(format).value)
  {
    match Layout(format)
    case None => ""
    case Some(layout) => render(t, layout)
  }

  /** `FormatStrToTime` without a time zone (time_utils.go:175-191): an
      unknown format key is an error; otherwise `parse` applies the
      layout. */
  function FormatStrToTime(str: string, format: string, parse: (string, string) -> Result<Instant>): (r: Result<Instant>)
    ensures Layout(format).None? ==> r.Err?
    ensures Layout(format).Some? ==> r == parse(Layout(format).value, str)
  {
    match Layout(format)
    case None => Err("format " + format + " not support")
    case Some(layout) => parse(layout, str)
  }
}
