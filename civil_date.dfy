/**
 * The calendar arithmetic behind `datetime.now() + timedelta(days=7)` and the
 * `strftime` formats `%Y-%m-%d` and `%Y-%m-%d %H:%M`, on the proleptic Gregorian
 * calendar that Python's `datetime` uses (years 1 to 9999).
 */
module CivilDate {
  import opened Wrappers
  import opened Ascii

  datatype Date = Date(year: int, month: int, day: int)

  /** A `datetime` down to the minute; seconds and below never reach the output. */
  datatype DateTime = DateTime(date: Date, hour: int, minute: int)

  predicate IsLeapYear(y: int) {
    y % 4 == 0 && (y % 100 != 0 || y % 400 == 0)
  }

  function YearDays(y: int): (n: int) {
    if IsLeapYear(y) then 366 else 365
  }

  function DaysInMonth(y: int, m: int): (n: int)
    requires 1 <= m <= 12
    ensures 28 <= n <= 31
  {
    if m == 2 then (if IsLeapYear(y) then 29 else 28)
    else if m == 4 || m == 6 || m == 9 || m == 11 then 30
    else 31
  }

  /** A day of the proleptic Gregorian calendar, without Python's upper year bound. */
  predicate IsCalendarDate(d: Date) {
    1 <= d.year && 1 <= d.month <= 12 && 1 <= d.day <= DaysInMonth(d.year, d.month)
  }

  /** `date.max`: the last day a Python `datetime` can hold. */
  const MaxDate := Date(9999, 12, 31)

  /** A value Python's `datetime` can hold. */
  predicate IsDateTime(t: DateTime) {
    IsCalendarDate(t.date) && t.date.year <= 9999 && 0 <= t.hour < 24 && 0 <= t.minute < 60
  }

  /** The day after `d`, rolling over month and year ends. */
  function NextDay(d: Date): (r: Date)
    requires IsCalendarDate(d)
  {
    if d.day < DaysInMonth(d.year, d.month) then Date(d.year, d.month, d.day + 1)
    else if d.month < 12 then Date(d.year, d.month + 1, 1)
    else Date(d.year + 1, 1, 1)
  }

  // ---------------------------------------------------------------------------
  // Day numbers: the reference definition of "n days later".

  /** Days in the years before `y` (Python's `_days_before_year`). */
  function DaysBeforeYear(y: int): (n: int)
    requires 1 <= y
  {
    var p := y - 1;
    365 * p + p / 4 - p / 100 + p / 400
  }

  /** Days in the months of year `y` before month `m` (Python's `_days_before_month`). */
  function DaysBeforeMonth(y: int, m: int): (n: int)
    requires 1 <= m <= 12
  {
    var leap := if m > 2 && IsLeapYear(y) then 1 else 0;
    leap + (if m == 1 then 0 else if m == 2 then 31 else if m == 3 then 59
      else if m == 4 then 90 else if m == 5 then 120 else if m == 6 then 151
      else if m == 7 then 181 else if m == 8 then 212 else if m == 9 then 243
      else if m == 10 then 273 else if m == 11 then 304 else 334)
  }

  /** `date.toordinal()`: 0001-01-01 is day 1. */
  function Ordinal(d: Date): (n: int)
    requires IsCalendarDate(d)
  {
    DaysBeforeYear(d.year) + DaysBeforeMonth(d.year, d.month) + d.day
  }

  /** The cumulative month table agrees with the month lengths. */
  lemma MonthTable(y: int, m: int)
    requires 1 <= m <= 12
    ensures m < 12 ==> DaysBeforeMonth(y, m + 1) == DaysBeforeMonth(y, m) + DaysInMonth(y, m)
    ensures m == 12 ==> DaysBeforeMonth(y, m) + DaysInMonth(y, m) == YearDays(y)
  {
  }

  /** Consecutive years are `YearDays` apart on the day-number line. */
  lemma YearStep(y: int)
    requires 1 <= y
    ensures DaysBeforeYear(y + 1) == DaysBeforeYear(y) + YearDays(y)
  {
    var p := y - 1;
    assert y / 4 == p / 4 + (if y % 4 == 0 then 1 else 0);
    assert y / 100 == p / 100 + (if y % 100 == 0 then 1 else 0);
    assert y / 400 == p / 400 + (if y % 400 == 0 then 1 else 0);
  }

  /** `NextDay` stays on the calendar and is exactly one day later. */
  lemma NextDayStep(d: Date)
    requires IsCalendarDate(d)
    ensures IsCalendarDate(NextDay(d))
    ensures Ordinal(NextDay(d)) == Ordinal(d) + 1
  {
    if d.day == DaysInMonth(d.year, d.month) {
      MonthTable(d.year, d.month);
      if d.month == 12 {
        YearStep(d.year);
      }
    }
  }

  /** `d + timedelta(days=n)` on the date part. */
  function AddDays(d: Date, n: nat): (r: Date)
    requires IsCalendarDate(d)
    ensures IsCalendarDate(r)
    ensures Ordinal(r) == Ordinal(d) + n
    ensures d.year <= r.year
    decreases n
  {
    if n == 0 then d
    else
      NextDayStep(d);
      AddDays(NextDay(d), n - 1)
  }

  /** Every date lies inside its own year's block of day numbers. */
  lemma OrdinalInYear(d: Date)
    requires IsCalendarDate(d)
    ensures DaysBeforeYear(d.year) < Ordinal(d) <= DaysBeforeYear(d.year) + YearDays(d.year)
    ensures DaysBeforeMonth(d.year, d.month) + d.day <= DaysBeforeMonth(d.year, d.month) + DaysInMonth(d.year, d.month)
  {
    MonthTable(d.year, 12);
  }

  /** Later years start after earlier years end. */
  lemma {:induction false} YearsOrdered(y1: int, y2: int)
    requires 1 <= y1 < y2
    ensures DaysBeforeYear(y1) + YearDays(y1) <= DaysBeforeYear(y2)
    decreases y2 - y1
  {
    YearStep(y1);
    if y1 + 1 < y2 {
      YearsOrdered(y1 + 1, y2);
    }
  }

  /** Within a year, later months start after earlier months end. */
  lemma MonthsOrdered(y: int, m1: int, m2: int)
    requires 1 <= m1 < m2 <= 12
    ensures DaysBeforeMonth(y, m1) + DaysInMonth(y, m1) <= DaysBeforeMonth(y, m2)
  {
  }

  /** Day numbers name dates uniquely. */
  lemma OrdinalInjective(a: Date, b: Date)
    requires IsCalendarDate(a) && IsCalendarDate(b)
    requires Ordinal(a) == Ordinal(b)
    ensures a == b
  {
    OrdinalInYear(a);
    OrdinalInYear(b);
    if a.year < b.year {
      YearsOrdered(a.year, b.year);
    } else if b.year < a.year {
      YearsOrdered(b.year, a.year);
    } else if a.month < b.month {
      MonthsOrdered(a.year, a.month, b.month);
    } else if b.month < a.month {
      MonthsOrdered(a.year, b.month, a.month);
    }
  }

  /** `AddDays(d, n)` is the one calendar date that lies `n` days after `d`. */
  lemma AddDaysUnique(d: Date, n: nat, e: Date)
    requires IsCalendarDate(d) && IsCalendarDate(e)
    ensures Ordinal(e) == Ordinal(d) + n <==> e == AddDays(d, n)
  {
    if Ordinal(e) == Ordinal(d) + n {
      OrdinalInjective(e, AddDays(d, n));
    }
  }

  /** `date.max` is the last day of the year-9999 block. */
  lemma MaxDateOrdinal()
    ensures IsCalendarDate(MaxDate)
    ensures Ordinal(MaxDate) == DaysBeforeYear(10000)
  {
    YearStep(9999);
  }

  /** A calendar date is within Python's range exactly when its day number is at most
      that of `date.max`. */
  lemma InRangeIffOrdinal(e: Date)
    requires IsCalendarDate(e)
    ensures e.year <= 9999 <==> Ordinal(e) <= Ordinal(MaxDate)
  {
    MaxDateOrdinal();
    OrdinalInYear(e);
    if e.year < 9999 {
      YearsOrdered(e.year, 9999);
      YearStep(9999);
    } else if e.year > 10000 {
      YearsOrdered(10000, e.year);
    }
  }

  // ---------------------------------------------------------------------------
  // strftime("%Y-%m-%d") and strftime("%Y-%m-%d %H:%M")

  /** `%02d` */
  function Pad2(n: int): (s: string)
    requires 0 <= n <= 99
  {
    [DigitChar(n / 10), DigitChar(n % 10)]
  }

  /** `%04d` */
  function Pad4(n: int): (s: string)
    requires 0 <= n <= 9999
  {
    [DigitChar(n / 1000), DigitChar(n / 100 % 10), DigitChar(n / 10 % 10), DigitChar(n % 10)]
  }

  /** The number written by a two-digit string. */
  function Value2(s: string): (n: int)
    requires |s| == 2 && IsDigit(s[0]) && IsDigit(s[1])
  {
    10 * DigitValue(s[0]) + DigitValue(s[1])
  }

  /** The number written by a four-digit string. */
  function Value4(s: string): (n: int)
    requires |s| == 4 && forall k :: 0 <= k < 4 ==> IsDigit(s[k])
  {
    1000 * DigitValue(s[0]) + 100 * DigitValue(s[1]) + 10 * DigitValue(s[2]) + DigitValue(s[3])
  }

  lemma Pad2RoundTrip(n: int)
    requires 0 <= n <= 99
    ensures |Pad2(n)| == 2 && IsDigit(Pad2(n)[0]) && IsDigit(Pad2(n)[1])
    ensures Value2(Pad2(n)) == n
  {
    DigitCharInverse(n / 10);
    DigitCharInverse(n % 10);
  }

  lemma Pad4RoundTrip(n: int)
    requires 0 <= n <= 9999
    ensures |Pad4(n)| == 4 && forall k :: 0 <= k < 4 ==> IsDigit(Pad4(n)[k])
    ensures Value4(Pad4(n)) == n
  {
    var q1, q2, q3 := n / 10, n / 100, n / 1000;
    assert n == 10 * q1 + n % 10;
    assert q1 == 10 * q2 + q1 % 10 && q1 % 10 == n / 10 % 10;
    assert q2 == 10 * q3 + q2 % 10 && q2 % 10 == n / 100 % 10;
    DigitCharInverse(n / 1000);
    DigitCharInverse(n / 100 % 10);
    DigitCharInverse(n / 10 % 10);
    DigitCharInverse(n % 10);
  }

  /** The fields a `%Y-%m-%d` rendering can hold. */
  predicate Formattable(d: Date) {
    0 <= d.year <= 9999 && 0 <= d.month <= 99 && 0 <= d.day <= 99
  }

  /** `d.strftime("%Y-%m-%d")` */
  function FormatDate(d: Date): (s: string)
    requires Formattable(d)
    ensures |s| == 10 && s[4] == '-' && s[7] == '-'
    ensures forall k :: 0 <= k < 10 && k != 4 && k != 7 ==> IsDigit(s[k])
  {
    Pad4(d.year) + "-" + Pad2(d.month) + "-" + Pad2(d.day)
  }

  /** Reads a `YYYY-MM-DD` string back; the inverse of `FormatDate`. */
  function ParseDate(s: string): (r: Option<Date>)
    ensures r.Some? ==> Formattable(r.value)
  {
    if |s| == 10 && s[4] == '-' && s[7] == '-'
       && (forall k :: 0 <= k < 10 && k != 4 && k != 7 ==> IsDigit(s[k]))
    then
      assert forall k :: 0 <= k < 4 ==> s[..4][k] == s[k];
      Some(Date(Value4(s[..4]), Value2(s[5..7]), Value2(s[8..])))
    else None
  }

  /** Formatting loses nothing: parsing the rendering gives back the date. */
  lemma ParseFormatDate(d: Date)
    requires Formattable(d)
    ensures ParseDate(FormatDate(d)) == Some(d)
  {
    var s := FormatDate(d);
    Pad4RoundTrip(d.year);
    Pad2RoundTrip(d.month);
    Pad2RoundTrip(d.day);
    assert s[..4] == Pad4(d.year);
    assert s[5..7] == Pad2(d.month);
    assert s[8..] == Pad2(d.day);
  }

  lemma Value2RoundTrip(s: string)
    requires |s| == 2 && IsDigit(s[0]) && IsDigit(s[1])
    ensures Pad2(Value2(s)) == s
  {
    DigitValueInverse(s[0]);
    DigitValueInverse(s[1]);
  }

  lemma Value4RoundTrip(s: string)
    requires |s| == 4 && forall k :: 0 <= k < 4 ==> IsDigit(s[k])
    ensures Pad4(Value4(s)) == s
  {
    DecimalDigits(DigitValue(s[0]), DigitValue(s[1]), DigitValue(s[2]), DigitValue(s[3]));
    DigitValueInverse(s[0]);
    DigitValueInverse(s[1]);
    DigitValueInverse(s[2]);
    DigitValueInverse(s[3]);
  }

  /** Reading four decimal digits back out of the number they write. */
  lemma DecimalDigits(a: int, b: int, c: int, e: int)
    requires 0 <= a <= 9 && 0 <= b <= 9 && 0 <= c <= 9 && 0 <= e <= 9
    ensures var n := 1000 * a + 100 * b + 10 * c + e;
      n / 1000 == a && n / 100 % 10 == b && n / 10 % 10 == c && n % 10 == e
  {
    var n := 1000 * a + 100 * b + 10 * c + e;
    assert n / 10 == 100 * a + 10 * b + c;
    assert n / 100 == 10 * a + b;
    assert n / 1000 == a;
  }

  /** Every well-shaped `YYYY-MM-DD` string is the rendering of what it parses to. */
  lemma FormatParseDate(s: string)
    requires ParseDate(s).Some?
    ensures FormatDate(ParseDate(s).value) == s
  {
    assert forall k :: 0 <= k < 4 ==> s[..4][k] == s[k];
    Value4RoundTrip(s[..4]);
    Value2RoundTrip(s[5..7]);
    Value2RoundTrip(s[8..]);
    assert s == s[..4] + "-" + s[5..7] + "-" + s[8..];
  }

  /** `t.strftime("%Y-%m-%d %H:%M")` */
  function FormatStamp(t: DateTime): (s: string)
    requires IsDateTime(t)
    ensures |s| == 16 && s[..10] == FormatDate(t.date) && s[10] == ' ' && s[13] == ':'
    ensures IsDigit(s[11]) && IsDigit(s[12]) && Value2(s[11..13]) == t.hour
    ensures IsDigit(s[14]) && IsDigit(s[15]) && Value2(s[14..]) == t.minute
  {
    Pad2RoundTrip(t.hour);
    Pad2RoundTrip(t.minute);
    var s := FormatDate(t.date) + " " + Pad2(t.hour) + ":" + Pad2(t.minute);
    assert s[11..13] == Pad2(t.hour) && s[14..] == Pad2(t.minute);
    s
  }

  // ---------------------------------------------------------------------------
  // Worked dates

  lemma ExampleNewYear()
    ensures AddDays(Date(2025, 1, 1), 7) == Date(2025, 1, 8)
    ensures FormatDate(Date(2025, 1, 8)) == "2025-01-08"
  {
    AddDaysUnique(Date(2025, 1, 1), 7, Date(2025, 1, 8));
  }

  lemma ExampleLeapFebruary()
    ensures AddDays(Date(2024, 2, 25), 7) == Date(2024, 3, 3)
  {
    AddDaysUnique(Date(2024, 2, 25), 7, Date(2024, 3, 3));
  }

  lemma ExampleYearEnd()
    ensures AddDays(Date(2024, 12, 28), 7) == Date(2025, 1, 4)
  {
    var d := Date(2024, 12, 28);
    assert AddDays(d, 7) == AddDays(Date(2024, 12, 31), 4);
    assert AddDays(Date(2024, 12, 31), 4) == AddDays(Date(2025, 1, 1), 3);
  }
}
