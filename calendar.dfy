/**
 * The proleptic Gregorian calendar as Python's datetime.date sees it:
 * years 1 through 9999, leap years, month lengths, the day ordinal that
 * date subtraction works with (date.toordinal: 0001-01-01 is day 1), and
 * the ISO text str(date) produces.
 */
module Calendar {
  import opened Optional
  import opened Text

  datatype Date = Date(year: int, month: int, day: int)

  const MinYear := 1
  const MaxYear := 9999

  predicate IsLeapYear(y: int) {
    y % 4 == 0 && (y % 100 != 0 || y % 400 == 0)
  }

  function DaysInMonth(y: int, m: int): (n: int)
    requires 1 <= m <= 12
    ensures 28 <= n <= 31
    ensures n == 29 <==> m == 2 && IsLeapYear(y)
  {
    if m == 2 then (if IsLeapYear(y) then 29 else 28)
    else if m == 4 || m == 6 || m == 9 || m == 11 then 30
    else 31
  }

  /** What datetime.date(year, month, day) accepts without raising ValueError. */
  predicate ValidDate(d: Date) {
    MinYear <= d.year <= MaxYear && 1 <= d.month <= 12 && 1 <= d.day <= DaysInMonth(d.year, d.month)
  }

  function DaysInYear(y: int): int {
    if IsLeapYear(y) then 366 else 365
  }

  /** Days in the years before year y (Python's _days_before_year; Dafny's / is floor division here). */
  function DaysBeforeYear(y: int): int {
    var p := y - 1;
    365 * p + p / 4 - p / 100 + p / 400
  }

  /** Days in year y before the first of month m (Python's _days_before_month). */
  function DaysBeforeMonth(y: int, m: int): int
    requires 1 <= m <= 12
  {
    var common :=
      if m == 1 then 0 else if m == 2 then 31 else if m == 3 then 59 else if m == 4 then 90
      else if m == 5 then 120 else if m == 6 then 151 else if m == 7 then 181 else if m == 8 then 212
      else if m == 9 then 243 else if m == 10 then 273 else if m == 11 then 304 else 334;
    common + (if m > 2 && IsLeapYear(y) then 1 else 0)
  }

  /** date.toordinal(): the day number of d, counting 0001-01-01 as day 1. */
  function Ordinal(d: Date): int
    requires ValidDate(d)
  {
    DaysBeforeYear(d.year) + DaysBeforeMonth(d.year, d.month) + d.day
  }

  /** (later - earlier).days for two dates. */
  function DaysBetween(earlier: Date, later: Date): int
    requires ValidDate(earlier) && ValidDate(later)
  {
    Ordinal(later) - Ordinal(earlier)
  }

  /** The calendar day after d, by the month and year rollover rules. */
  function NextDay(d: Date): Date
    requires ValidDate(d)
  {
    if d.day < DaysInMonth(d.year, d.month) then Date(d.year, d.month, d.day + 1)
    else if d.month < 12 then Date(d.year, d.month + 1, 1)
    else Date(d.year + 1, 1, 1)
  }

  lemma YearLength(y: int)
    ensures DaysBeforeYear(y + 1) == DaysBeforeYear(y) + DaysInYear(y)
  {
    DivStep(y, 4);
    DivStep(y, 100);
    DivStep(y, 400);
    if y % 400 == 0 {
      CenturyOf400(y);
    }
    if y % 100 == 0 {
      LeapOfCentury(y);
    }
  }

  /** A multiple of 400 is a multiple of 100. */
  lemma CenturyOf400(y: int)
    requires y % 400 == 0
    ensures y % 100 == 0
  {
    var k := y / 400;
    assert y == 400 * k;
    assert y - 100 * (4 * k) == 0;
  }

  /** A multiple of 100 is a multiple of 4. */
  lemma LeapOfCentury(y: int)
    requires y % 100 == 0
    ensures y % 4 == 0
  {
    var k := y / 100;
    assert y == 100 * k;
    assert y - 4 * (25 * k) == 0;
  }

  /** Going from y - 1 to y, the quotient by m grows by one exactly when m divides y. */
  lemma DivStep(y: int, m: int)
    requires m == 4 || m == 100 || m == 400
    ensures y / m == (y - 1) / m + (if y % m == 0 then 1 else 0)
  {
    if m == 4 {
      assert y / 4 == (y - 1) / 4 + (if y % 4 == 0 then 1 else 0);
    } else if m == 100 {
      assert y / 100 == (y - 1) / 100 + (if y % 100 == 0 then 1 else 0);
    } else {
      assert y / 400 == (y - 1) / 400 + (if y % 400 == 0 then 1 else 0);
    }
  }

  /** The ordinal counts days: the next calendar day is exactly one ordinal later. */
  lemma NextDayIsOneLater(d: Date)
    requires ValidDate(d) && d != Date(MaxYear, 12, 31)
    ensures ValidDate(NextDay(d))
    ensures Ordinal(NextDay(d)) == Ordinal(d) + 1
  {
    if d.day == DaysInMonth(d.year, d.month) && d.month == 12 {
      YearLength(d.year);
    }
  }

  /** A later year starts at least a year's worth of days later. */
  lemma {:induction false} DaysBeforeYearGrows(y: int, z: int)
    requires y < z
    ensures DaysBeforeYear(y) + DaysInYear(y) <= DaysBeforeYear(z)
    decreases z - y
  {
    YearLength(y);
    if y + 1 < z {
      DaysBeforeYearGrows(y + 1, z);
    }
  }

  predicate Before(d: Date, e: Date) {
    d.year < e.year || (d.year == e.year && (d.month < e.month || (d.month == e.month && d.day < e.day)))
  }

  /** Ordinals of valid dates follow calendar order, so date subtraction is positive exactly forwards. */
  lemma OrdinalFollowsCalendarOrder(d: Date, e: Date)
    requires ValidDate(d) && ValidDate(e) && Before(d, e)
    ensures Ordinal(d) < Ordinal(e)
  {
    if d.year < e.year {
      DaysBeforeYearGrows(d.year, e.year);
      assert DaysBeforeMonth(d.year, d.month) + d.day <= DaysInYear(d.year);
    }
  }

  /** For valid dates that differ, calendar order and ordinal order agree in both directions. */
  lemma OrdinalOrderIff(d: Date, e: Date)
    requires ValidDate(d) && ValidDate(e) && d != e
    ensures Before(d, e) <==> Ordinal(d) < Ordinal(e)
  {
    if Before(d, e) {
      OrdinalFollowsCalendarOrder(d, e);
    } else {
      OrdinalFollowsCalendarOrder(e, d);
    }
  }

  /** str(date): the "YYYY-MM-DD" text. */
  function IsoFormat(d: Date): (s: string)
    requires ValidDate(d)
    ensures |s| == 10 && s[4] == '-' && s[7] == '-'
    ensures AllDigits(s[..4]) && AllDigits(s[5..7]) && AllDigits(s[8..])
    ensures DigitsValue(s[..4]) == d.year && DigitsValue(s[5..7]) == d.month && DigitsValue(s[8..]) == d.day
  {
    var s := Pad4(d.year) + "-" + Pad2(d.month) + "-" + Pad2(d.day);
    assert s[..4] == Pad4(d.year) && s[5..7] == Pad2(d.month) && s[8..] == Pad2(d.day);
    s
  }

  /** Reads "YYYY-MM-DD" back into a valid date, or None. */
  function ParseIsoDate(s: string): (r: Option<Date>)
    ensures r.Some? ==> ValidDate(r.value)
  {
    if |s| == 10 && s[4] == '-' && s[7] == '-' && AllDigits(s[..4]) && AllDigits(s[5..7]) && AllDigits(s[8..]) then
      var d := Date(DigitsValue(s[..4]), DigitsValue(s[5..7]), DigitsValue(s[8..]));
      if ValidDate(d) then Some(d) else None
    else None
  }

  predicate IsIsoDate(s: string) {
    ParseIsoDate(s).Some?
  }

  lemma IsoRoundTrip(d: Date)
    requires ValidDate(d)
    ensures ParseIsoDate(IsoFormat(d)) == Some(d)
  {
    var s := IsoFormat(d);
    assert s[..4] == Pad4(d.year);
    assert s[5..7] == Pad2(d.month);
    assert s[8..] == Pad2(d.day);
  }
}
