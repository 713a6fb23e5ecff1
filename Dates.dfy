/**
 * Calendar dates, the four date formats of `parse_date` (test_copy.py:21-28),
 * `strftime("%Y-%m-%d")` (test_copy.py:103) and `within_lookback`
 * (test_copy.py:30-33).
 *
 * Time is measured in microseconds, Python's `datetime` resolution, counted
 * from 0001-01-01 00:00, the start of day 1 of the proleptic Gregorian
 * calendar. A parsed date stands for the midnight that starts it; `now`
 * carries a time of day.
 */
module Dates {

  import opened Wrappers
  import opened Text

  datatype Date = Date(year: int, month: int, day: int)

  predicate IsLeapYear(y: int)
  {
    y % 4 == 0 && (y % 100 != 0 || y % 400 == 0)
  }

  function DaysInMonth(y: int, m: int): int
    requires 1 <= m <= 12
  {
    if m == 2 then (if IsLeapYear(y) then 29 else 28)
    else if m == 4 || m == 6 || m == 9 || m == 11 then 30
    else 31
  }

  /** The dates Python's `datetime` accepts: years 1 to 9999 and a day that exists in its month. */
  predicate IsValid(d: Date)
  {
    1 <= d.year <= 9999 && 1 <= d.month <= 12 && 1 <= d.day <= DaysInMonth(d.year, d.month)
  }

  type ValidDate = d: Date | IsValid(d) witness Date(1, 1, 1)

  /** Calendar order: `a` is strictly earlier than `b`. */
  predicate Precedes(a: Date, b: Date)
  {
    a.year < b.year
    || (a.year == b.year && a.month < b.month)
    || (a.year == b.year && a.month == b.month && a.day < b.day)
  }

  // ---------------------------------------------------------------------
  // Day numbers (Python's `date.toordinal()`: 0001-01-01 is day 1)
  // ---------------------------------------------------------------------

  function DaysBeforeYear(y: int): int
    requires y >= 1
  {
    var p := y - 1;
    p * 365 + p / 4 - p / 100 + p / 400
  }

  function DaysBeforeMonth(y: int, m: int): int
    requires 1 <= m <= 12
  {
    [0, 31, 59, 90, 120, 151, 181, 212, 243, 273, 304, 334][m - 1]
      + (if m > 2 && IsLeapYear(y) then 1 else 0)
  }

  function Ordinal(d: ValidDate): int
  {
    DaysBeforeYear(d.year) + DaysBeforeMonth(d.year, d.month) + d.day
  }

  const MicrosPerDay: int := 86_400_000_000

  /** The moment at which `d` begins: the `datetime` that `strptime` returns for it. */
  function Midnight(d: ValidDate): int
  {
    (Ordinal(d) - 1) * MicrosPerDay
  }

  function DaysInYear(y: int): int
  {
    if IsLeapYear(y) then 366 else 365
  }

  /** Counting multiples: going from `y - 1` to `y` passes one more multiple of 4, 100 or 400 exactly when `y` is one. */
  lemma MultiplesStep(y: int)
    requires y >= 1
    ensures y / 4 == (y - 1) / 4 + (if y % 4 == 0 then 1 else 0)
    ensures y / 100 == (y - 1) / 100 + (if y % 100 == 0 then 1 else 0)
    ensures y / 400 == (y - 1) / 400 + (if y % 400 == 0 then 1 else 0)
  {
  }

  /** A multiple of 100 is a multiple of 4. */
  lemma CenturyDivisibleBy4(y: int)
    requires y % 100 == 0
    ensures y % 4 == 0
  {
    assert y == 4 * (25 * (y / 100));
  }

  /** A multiple of 400 is a multiple of 100. */
  lemma QuadCenturyIsCentury(y: int)
    requires y % 400 == 0
    ensures y % 100 == 0
  {
    assert y == 100 * (4 * (y / 400));
  }

  lemma DaysBeforeYearStep(y: int)
    requires y >= 1
    ensures DaysBeforeYear(y + 1) == DaysBeforeYear(y) + DaysInYear(y)
  {
    MultiplesStep(y);
    if y % 100 == 0 {
      CenturyDivisibleBy4(y);
    }
    if y % 400 == 0 {
      QuadCenturyIsCentury(y);
    }
    assert DaysBeforeYear(y + 1) - DaysBeforeYear(y)
      == 365 + (y / 4 - (y - 1) / 4) - (y / 100 - (y - 1) / 100) + (y / 400 - (y - 1) / 400);
  }

  lemma {:induction false} DaysBeforeYearGrows(y1: int, y2: int)
    requires 1 <= y1 < y2
    ensures DaysBeforeYear(y1) + DaysInYear(y1) <= DaysBeforeYear(y2)
    decreases y2 - y1
  {
    DaysBeforeYearStep(y1);
    if y1 + 1 < y2 {
      DaysBeforeYearGrows(y1 + 1, y2);
    }
  }

  /** Within one year, the days before a date plus the days from it to the year's end fill the year. */
  lemma DayOfYearBounds(d: ValidDate)
    ensures 1 <= DaysBeforeMonth(d.year, d.month) + d.day <= DaysInYear(d.year)
  {
  }

  lemma MonthsGrow(y: int, m1: int, m2: int)
    requires 1 <= m1 < m2 <= 12
    ensures DaysBeforeMonth(y, m1) + DaysInMonth(y, m1) <= DaysBeforeMonth(y, m2)
  {
  }

  /** Day numbers follow the calendar: a date is earlier exactly when its day number is smaller. */
  lemma OrdinalOrder(a: ValidDate, b: ValidDate)
    ensures Precedes(a, b) <==> Ordinal(a) < Ordinal(b)
    ensures a == b <==> Ordinal(a) == Ordinal(b)
  {
    if a.year < b.year {
      DayOfYearBounds(a);
      DayOfYearBounds(b);
      DaysBeforeYearGrows(a.year, b.year);
    } else if b.year < a.year {
      DayOfYearBounds(a);
      DayOfYearBounds(b);
      DaysBeforeYearGrows(b.year, a.year);
    } else if a.month < b.month {
      MonthsGrow(a.year, a.month, b.month);
    } else if b.month < a.month {
      MonthsGrow(a.year, b.month, a.month);
    }
  }

  // ---------------------------------------------------------------------
  // within_lookback
  // ---------------------------------------------------------------------

  /** `within_lookback(dt, days)` with `datetime.now()` passed in as `now`. */
  predicate WithinLookback(dt: Option<ValidDate>, now: int, days: int)
  {
    dt.Some? && Midnight(dt.value) >= now - days * MicrosPerDay
  }

  /** Any date on or after an accepted date is accepted too. */
  lemma WithinLookbackMonotone(a: ValidDate, b: ValidDate, now: int, days: int)
    requires WithinLookback(Some(a), now, days)
    requires !Precedes(b, a)
    ensures WithinLookback(Some(b), now, days)
  {
    OrdinalOrder(b, a);
  }

  /**
   * The boundary of the window: with `now` at time `t` into the day `today`,
   * the date exactly `days` calendar days earlier is accepted only when `t`
   * is zero, i.e. when `now` is itself midnight, and the day before it never is.
   */
  lemma LookbackBoundary(today: ValidDate, t: int, d: ValidDate, days: int)
    requires 0 <= t < MicrosPerDay
    ensures Ordinal(d) == Ordinal(today) - days ==>
      (WithinLookback(Some(d), Midnight(today) + t, days) <==> t == 0)
    ensures Ordinal(d) < Ordinal(today) - days ==>
      !WithinLookback(Some(d), Midnight(today) + t, days)
    ensures Ordinal(d) > Ordinal(today) - days ==>
      WithinLookback(Some(d), Midnight(today) + t, days)
  {
  }

  // ---------------------------------------------------------------------
  // min() over parsed dates
  // ---------------------------------------------------------------------

  /** Python's `min(dates)`: the earliest of a non-empty list of dates. */
  function Oldest(ds: seq<ValidDate>): ValidDate
    requires |ds| > 0
  {
    if |ds| == 1 then ds[0]
    else
      var m := Oldest(ds[1..]);
      if Precedes(m, ds[0]) then m else ds[0]
  }

  /** `min(dates)` is one of the dates, and none of them is earlier. */
  lemma {:induction false} OldestIsMinimum(ds: seq<ValidDate>)
    requires |ds| > 0
    ensures Oldest(ds) in ds
    ensures forall i :: 0 <= i < |ds| ==> !Precedes(ds[i], Oldest(ds))
  {
    if |ds| > 1 {
      OldestIsMinimum(ds[1..]);
      assert forall i :: 1 <= i < |ds| ==> ds[i] == ds[1..][i - 1];
    }
  }


  // ---------------------------------------------------------------------
  // parse_date: the four strptime formats
  // ---------------------------------------------------------------------

  predicate IsDigit(c: char)
  {
    '0' <= c <= '9'
  }

  predicate AllDigits(s: string)
  {
    forall i :: 0 <= i < |s| ==> IsDigit(s[i])
  }

  function DigitValue(c: char): int
    requires IsDigit(c)
  {
    c as int - '0' as int
  }

  function DigitsValue(s: string): int
    requires AllDigits(s)
  {
    if s == [] then 0 else DigitsValue(s[..|s| - 1]) * 10 + DigitValue(s[|s| - 1])
  }

  /** The `%m` pattern of `strptime`: `1[0-2]|0[1-9]|[1-9]`. */
  predicate IsMonthField(s: string)
  {
    || (|s| == 1 && '1' <= s[0] <= '9')
    || (|s| == 2 && s[0] == '0' && '1' <= s[1] <= '9')
    || (|s| == 2 && s[0] == '1' && '0' <= s[1] <= '2')
  }

  /** The `%d` pattern of `strptime`: `3[01]|[12]\d|0[1-9]|[1-9]| [1-9]` (a space may stand for a leading zero). */
  predicate IsDayField(s: string)
  {
    || (|s| == 1 && '1' <= s[0] <= '9')
    || (|s| == 2 && s[0] == '3' && '0' <= s[1] <= '1')
    || (|s| == 2 && '1' <= s[0] <= '2' && IsDigit(s[1]))
    || (|s| == 2 && (s[0] == '0' || s[0] == ' ') && '1' <= s[1] <= '9')
  }

  /** The value `int()` gives a month or day field (a leading space is ignored). */
  function FieldValue(s: string): int
    requires IsMonthField(s) || IsDayField(s)
  {
    if |s| == 1 then DigitValue(s[0])
    else if s[0] == ' ' then DigitValue(s[1])
    else DigitsValue(s)
  }

  /**
   * One format of `parse_date`: a year of `yearDigits` digits (4 for `%Y`,
   * 2 for `%y`), then month and day, each preceded by `sep`.
   */
  datatype Format = Format(yearDigits: nat, sep: char)

  /** The formats `%Y-%m-%d`, `%Y.%m.%d`, `%Y/%m/%d`, `%y-%m-%d`, in the order they are tried. */
  const DateFormats: seq<Format> := [Format(4, '-'), Format(4, '.'), Format(4, '/'), Format(2, '-')]

  /** `%y` puts 00-68 in the 2000s and 69-99 in the 1900s. */
  function YearOf(f: Format, v: int): int
  {
    if f.yearDigits != 2 then v else if v <= 68 then v + 2000 else v + 1900
  }

  /** Matches the whole of `t` against the pattern of `f`; the month has one or two characters. */
  function MatchFields(t: string, f: Format): Option<Date>
  {
    var n := f.yearDigits;
    if |t| <= n || !AllDigits(t[..n]) || t[n] != f.sep then None
    else
      var year := YearOf(f, DigitsValue(t[..n]));
      var rest := t[n + 1..];
      if 2 <= |rest| && IsMonthField(rest[..1]) && rest[1] == f.sep && IsDayField(rest[2..]) then
        Some(Date(year, FieldValue(rest[..1]), FieldValue(rest[2..])))
      else if 3 <= |rest| && IsMonthField(rest[..2]) && rest[2] == f.sep && IsDayField(rest[3..]) then
        Some(Date(year, FieldValue(rest[..2]), FieldValue(rest[3..])))
      else None
  }

  /** `datetime.strptime(t, f)`: the pattern must match and the date must exist, or it raises. */
  function Strptime(t: string, f: Format): Option<ValidDate>
  {
    match MatchFields(t, f)
    case Some(d) => if IsValid(d) then Some(d) else None
    case None => None
  }

  /** The loop over the formats: the first format that parses wins. */
  function FirstParse(t: string, fs: seq<Format>): Option<ValidDate>
  {
    if fs == [] then None
    else
      match Strptime(t, fs[0])
      case Some(d) => Some(d)
      case None => FirstParse(t, fs[1..])
  }

  /**
   * A date comes back exactly when some format parses the text, and then it
   * is what the first format that parses gives.
   */
  lemma {:induction false} FirstParseFirst(t: string, fs: seq<Format>)
    ensures var r := FirstParse(t, fs);
      && (r.Some? <==> exists i :: 0 <= i < |fs| && Strptime(t, fs[i]).Some?)
      && (r.Some? ==>
            exists i :: 0 <= i < |fs| && r == Strptime(t, fs[i]) && forall j :: 0 <= j < i ==> Strptime(t, fs[j]).None?)
  {
    if fs != [] && Strptime(t, fs[0]).None? {
      FirstParseFirst(t, fs[1..]);
      assert forall i :: 1 <= i < |fs| ==> fs[i] == fs[1..][i - 1];
      var r := FirstParse(t, fs);
      if r.Some? {
        var i :| 0 <= i < |fs[1..]| && r == Strptime(t, fs[1..][i])
          && forall j :: 0 <= j < i ==> Strptime(t, fs[1..][j]).None?;
        assert r == Strptime(t, fs[i + 1]);
        assert forall j :: 0 <= j < i + 1 ==> Strptime(t, fs[j]).None?;
      }
    }
  }

  /** `parse_date(text)`. */
  function ParseDate(text: string): Option<ValidDate>
  {
    FirstParse(Strip(text), DateFormats)
  }

  // ---------------------------------------------------------------------
  // strftime("%Y-%m-%d") and the round trip
  // ---------------------------------------------------------------------

  function DigitChar(k: int): (c: char)
    requires 0 <= k < 10
    ensures IsDigit(c) && DigitValue(c) == k
  {
    ('0' as int + k) as char
  }

  /** `n` written with exactly two digits, zero-padded. */
  function TwoDigits(n: int): (s: string)
    requires 0 <= n < 100
    ensures |s| == 2 && AllDigits(s) && DigitsValue(s) == n
  {
    var s := [DigitChar(n / 10), DigitChar(n % 10)];
    assert s[..1] == [DigitChar(n / 10)] && s[..1][..0] == [];
    assert DigitsValue(s[..1]) == n / 10;
    s
  }

  /** `n` written with exactly four digits, zero-padded. */
  function FourDigits(n: int): (s: string)
    requires 0 <= n < 10000
    ensures |s| == 4 && AllDigits(s) && DigitsValue(s) == n
  {
    var s := TwoDigits(n / 100) + TwoDigits(n % 100);
    assert s[..3][..2] == s[..2] == TwoDigits(n / 100);
    assert s[..3] == s[..2] + [s[2]];
    s
  }

  /** A date written in the `%Y`-style format with separator `sep`. */
  function Render(d: ValidDate, sep: char): string
  {
    FourDigits(d.year) + [sep] + TwoDigits(d.month) + [sep] + TwoDigits(d.day)
  }

  /** `dt.strftime("%Y-%m-%d")`. */
  function FormatDate(d: ValidDate): string
  {
    Render(d, '-')
  }

  lemma TwoDigitMonth(m: int)
    requires 1 <= m <= 12
    ensures IsMonthField(TwoDigits(m)) && FieldValue(TwoDigits(m)) == m
    ensures !IsMonthField(TwoDigits(m)[..1]) || IsDigit(TwoDigits(m)[1])
  {
  }

  lemma TwoDigitDay(d: int)
    requires 1 <= d <= 31
    ensures IsDayField(TwoDigits(d)) && FieldValue(TwoDigits(d)) == d
  {
  }

  /** A date written as `YYYY<sep>MM<sep>DD` matches the `%Y` format with that separator. */
  lemma RenderMatches(d: ValidDate, sep: char)
    requires !IsDigit(sep)
    ensures Strptime(Render(d, sep), Format(4, sep)) == Some(d)
  {
    var t := Render(d, sep);
    var rest := t[5..];
    assert t[..4] == FourDigits(d.year);
    assert rest == TwoDigits(d.month) + [sep] + TwoDigits(d.day);
    TwoDigitMonth(d.month);
    TwoDigitDay(d.day);
    assert rest[..2] == TwoDigits(d.month);
    assert rest[3..] == TwoDigits(d.day);
  }

  /** A rendered date has digits at both ends, so `strip()` leaves it alone. */
  lemma RenderStripped(d: ValidDate, sep: char)
    ensures Strip(Render(d, sep)) == Render(d, sep)
  {
    var t := Render(d, sep);
    assert IsDigit(t[0]) && IsDigit(t[|t| - 1]);
    StripUnchanged(t);
  }

  /** The normalised date text re-parses to the same date. */
  lemma FormatThenParse(d: ValidDate)
    ensures ParseDate(FormatDate(d)) == Some(d)
  {
    RenderStripped(d, '-');
    RenderMatches(d, '-');
  }

  /** When the first format does not parse, the search goes on with the others. */
  lemma FirstParseSkips(t: string, fs: seq<Format>)
    requires fs != [] && Strptime(t, fs[0]).None?
    ensures FirstParse(t, fs) == FirstParse(t, fs[1..])
  {
  }

  /** A format whose separator is not the character after the year cannot match. */
  lemma WrongSeparator(t: string, f: Format)
    requires |t| > f.yearDigits && t[f.yearDigits] != f.sep
    ensures Strptime(t, f).None?
  {
  }

  /**
   * A date written `YYYY<sep>MM<sep>DD` with any of the three separators of
   * the `%Y` formats parses back to that date; so `"2024-05-01"`,
   * `"2024.05.01"` and `"2024/05/01"` all give May 1, 2024.
   */
  lemma {:induction false} SeparatorsAgree(d: ValidDate, i: nat)
    requires i < 3
    ensures ParseDate(Render(d, DateFormats[i].sep)) == Some(d)
  {
    var sep := DateFormats[i].sep;
    var t := Render(d, sep);
    RenderStripped(d, sep);
    RenderMatches(d, sep);
    assert DateFormats[i] == Format(4, sep);
    assert t[4] == sep;
    var j := 0;
    while j < i
      invariant j <= i
      invariant FirstParse(t, DateFormats) == FirstParse(t, DateFormats[j..])
    {
      WrongSeparator(t, DateFormats[j]);
      FirstParseSkips(t, DateFormats[j..]);
      assert DateFormats[j..][1..] == DateFormats[j + 1..];
      j := j + 1;
    }
  }

  /** A date written `YY-MM-DD`, the `%y` format. */
  function RenderShort(d: ValidDate): string
  {
    TwoDigits(d.year % 100) + "-" + TwoDigits(d.month) + "-" + TwoDigits(d.day)
  }

  lemma ShortYearMatches(d: ValidDate)
    requires 1969 <= d.year <= 2068
    ensures Strptime(RenderShort(d), DateFormats[3]) == Some(d)
  {
    var t := RenderShort(d);
    var rest := t[3..];
    assert t[..2] == TwoDigits(d.year % 100);
    assert rest == TwoDigits(d.month) + "-" + TwoDigits(d.day);
    TwoDigitMonth(d.month);
    TwoDigitDay(d.day);
    assert rest[..2] == TwoDigits(d.month);
    assert rest[3..] == TwoDigits(d.day);
  }

  /** A format whose year has more digits than the text before the first non-digit cannot match. */
  lemma YearTooShort(t: string, f: Format, k: nat)
    requires k < f.yearDigits && k < |t| && !IsDigit(t[k])
    ensures Strptime(t, f).None?
  {
    if |t| > f.yearDigits {
      assert t[..f.yearDigits][k] == t[k];
    }
  }

  lemma RenderShortShape(d: ValidDate)
    ensures var t := RenderShort(d); |t| == 8 && IsDigit(t[0]) && t[2] == '-' && IsDigit(t[7])
  {
  }

  /** A two-digit year `YY-MM-DD` parses with the pivot of `%y`: 1969 to 2068. */
  lemma ShortYearParses(d: ValidDate)
    requires 1969 <= d.year <= 2068
    ensures ParseDate(RenderShort(d)) == Some(d)
  {
    ShortYearFacts(d);
    ParseDateAt(RenderShort(d), 3);
  }

  lemma ShortYearFacts(d: ValidDate)
    requires 1969 <= d.year <= 2068
    ensures Strip(RenderShort(d)) == RenderShort(d)
    ensures forall j :: 0 <= j < 3 ==> Strptime(RenderShort(d), DateFormats[j]).None?
    ensures Strptime(RenderShort(d), DateFormats[3]) == Some(d)
  {
    ShortYearStripped(d);
    ShortYearNotLong(d);
    ShortYearMatches(d);
  }

  lemma ShortYearStripped(d: ValidDate)
    ensures Strip(RenderShort(d)) == RenderShort(d)
  {
    RenderShortShape(d);
    StripUnchanged(RenderShort(d));
  }

  lemma ShortYearNotLong(d: ValidDate)
    ensures forall j :: 0 <= j < 3 ==> Strptime(RenderShort(d), DateFormats[j]).None?
  {
    RenderShortShape(d);
    NoLongYear(RenderShort(d));
  }

  /** Text with a non-digit in third place matches none of the `%Y` formats. */
  lemma NoLongYear(t: string)
    requires |t| > 2 && !IsDigit(t[2])
    ensures Strptime(t, DateFormats[0]).None? && Strptime(t, DateFormats[1]).None? && Strptime(t, DateFormats[2]).None?
  {
    YearTooShort(t, DateFormats[0], 2);
    YearTooShort(t, DateFormats[1], 2);
    YearTooShort(t, DateFormats[2], 2);
  }

  /** `parse_date` returns what the `i`-th format gives when every earlier format fails. */
  lemma {:induction false} ParseDateAt(t: string, i: nat)
    requires i < |DateFormats| && Strip(t) == t
    requires forall j :: 0 <= j < i ==> Strptime(t, DateFormats[j]).None?
    requires Strptime(t, DateFormats[i]).Some?
    ensures ParseDate(t) == Strptime(t, DateFormats[i])
  {
    var k := 0;
    while k < i
      invariant k <= i
      invariant FirstParse(t, DateFormats) == FirstParse(t, DateFormats[k..])
    {
      FirstParseSkips(t, DateFormats[k..]);
      assert DateFormats[k..][1..] == DateFormats[k + 1..];
      k := k + 1;
    }
  }

}
