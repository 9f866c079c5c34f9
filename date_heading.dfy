/**
 * parse_pcc_date: a year-less listing heading such as "Thursday 3rd April"
 * becomes a calendar date. Ordinal suffixes after digits are removed, the
 * module-level current year is appended and the text is read with the
 * strptime format '%A %d %B %Y'; a date that comes out more than 60 days
 * before today is read again with the following year. The clock is not
 * read here: the current year and today's date are parameters.
 */
module DateHeading {
  import Seqs
  import opened Optional
  import opened Text
  import opened Calendar

  /** A heading whose date lies more than this many days before today is taken to mean next year. */
  const PastWindowDays := 60

  const WeekdayNames: seq<string> :=
    ["Monday", "Tuesday", "Wednesday", "Thursday", "Friday", "Saturday", "Sunday"]

  const MonthNames: seq<string> :=
    ["January", "February", "March", "April", "May", "June",
     "July", "August", "September", "October", "November", "December"]

  predicate IsLetter(c: char) {
    'A' <= c <= 'Z' || 'a' <= c <= 'z'
  }

  predicate IsName(t: string) {
    t != [] && forall i | 0 <= i < |t| :: IsLetter(t[i])
  }

  lemma NamesAreWords()
    ensures forall i | 0 <= i < |WeekdayNames| :: IsName(WeekdayNames[i])
    ensures forall i | 0 <= i < |MonthNames| :: IsName(MonthNames[i])
  {
  }

  lemma NameShape(t: string)
    requires IsName(t)
    ensures NoSpace(t) && NoDigits(t) && Trimmed(t)
  {
  }

  // ---------------------------------------------------------------------
  // re.sub(r'(\d+)(st|nd|rd|th)', r'\1', s)
  // ---------------------------------------------------------------------

  predicate IsOrdinalSuffix(t: string) {
    t == "st" || t == "nd" || t == "rd" || t == "th"
  }

  lemma SuffixStartsWithLetter(t: string)
    requires IsOrdinalSuffix(t)
    ensures |t| == 2 && IsLetter(t[0]) && !IsDigit(t[0])
  {
  }

  /** Length of the longest prefix of s made of digits. */
  function DigitRun(s: string): (k: nat)
    ensures k <= |s| && AllDigits(s[..k])
    ensures k < |s| ==> !IsDigit(s[k])
  {
    if s == [] || !IsDigit(s[0]) then 0 else 1 + DigitRun(s[1..])
  }

  /**
   * The pattern matches at the start of s: a run of digits, then a suffix.
   * The greedy run never has to give digits back, since no suffix starts with a digit.
   */
  predicate OrdinalAtStart(s: string) {
    s != [] && IsDigit(s[0]) && DigitRun(s) + 2 <= |s| && IsOrdinalSuffix(s[DigitRun(s)..DigitRun(s) + 2])
  }

  /** The substitution, scanning left to right as re.sub does: a match keeps its digits and drops its suffix. */
  function StripOrdinals(s: string): (r: string)
    ensures |r| <= |s|
    ensures s != [] ==> r != [] && r[0] == s[0]
  {
    if s == [] then []
    else if OrdinalAtStart(s) then
      var k := DigitRun(s);
      s[..k] + StripOrdinals(s[k + 2..])
    else [s[0]] + StripOrdinals(s[1..])
  }

  /** Some position of s starts a digits-then-suffix match. */
  predicate HasOrdinal(s: string) {
    exists i | 0 <= i < |s| :: OrdinalAtStart(s[i..])
  }

  lemma {:induction false} DigitRunStops(a: string, c: string)
    requires c == [] || !IsDigit(c[0])
    ensures DigitRun(a + c) == DigitRun(a)
  {
    if a != [] && IsDigit(a[0]) {
      assert (a + c)[1..] == a[1..] + c;
      DigitRunStops(a[1..], c);
    }
  }

  /** Past a position where no match starts, the matches of s are those of its tail. */
  lemma HasOrdinalTail(s: string)
    requires s != [] && !OrdinalAtStart(s)
    ensures HasOrdinal(s) <==> HasOrdinal(s[1..])
  {
    var t := s[1..];
    if HasOrdinal(s) {
      var i :| 0 <= i < |s| && OrdinalAtStart(s[i..]);
      assert i != 0 by { assert s[0..] == s; }
      assert t[i - 1..] == s[i..];
    }
    if HasOrdinal(t) {
      var i :| 0 <= i < |t| && OrdinalAtStart(t[i..]);
      assert t[i..] == s[i + 1..];
    }
  }

  /** Text in which the pattern matches nowhere is left as it is. */
  lemma {:induction false} StripOrdinalsWithoutMatch(s: string)
    requires !HasOrdinal(s)
    ensures StripOrdinals(s) == s
  {
    if s != [] {
      assert !OrdinalAtStart(s) by { assert s[0..] == s; }
      HasOrdinalTail(s);
      StripOrdinalsWithoutMatch(s[1..]);
      assert [s[0]] + s[1..] == s;
    }
  }

  /** Text in which the pattern matches somewhere comes out shorter. */
  lemma {:induction false} StripOrdinalsShortens(s: string)
    requires HasOrdinal(s)
    ensures |StripOrdinals(s)| < |s|
  {
    if OrdinalAtStart(s) {
      var k := DigitRun(s);
      assert |StripOrdinals(s[k + 2..])| <= |s| - k - 2;
    } else {
      HasOrdinalTail(s);
      StripOrdinalsShortens(s[1..]);
    }
  }

  /** The substitution changes s exactly when the pattern matches somewhere in s. */
  lemma StripOrdinalsChangesOnlyMatches(s: string)
    ensures StripOrdinals(s) == s <==> !HasOrdinal(s)
  {
    if HasOrdinal(s) {
      StripOrdinalsShortens(s);
    } else {
      StripOrdinalsWithoutMatch(s);
    }
  }

  /** "3rd ..." becomes "3 ...": a match loses its suffix and keeps its digits. */
  lemma StripOrdinalsDropsSuffix(digits: string, suffix: string, rest: string)
    requires digits != [] && AllDigits(digits) && IsOrdinalSuffix(suffix)
    ensures StripOrdinals(digits + suffix + rest) == digits + StripOrdinals(rest)
  {
    var s := digits + suffix + rest;
    assert s == digits + (suffix + rest);
    DigitRunStops(digits, suffix + rest);
    DigitRunStops(digits, []);
    assert digits + [] == digits;
    var k := DigitRun(s);
    assert k == |digits|;
    assert s[..k] == digits && s[k..k + 2] == suffix && s[k + 2..] == rest;
  }

  /** Digits that no suffix follows are copied unchanged. */
  lemma {:induction false} StripOrdinalsKeepsBareDigits(digits: string, rest: string)
    requires digits != [] && AllDigits(digits)
    requires rest == [] || !IsDigit(rest[0])
    requires !(|rest| >= 2 && IsOrdinalSuffix(rest[..2]))
    ensures StripOrdinals(digits + rest) == digits + StripOrdinals(rest)
    decreases |digits|
  {
    NoMatchBeforeBareSuffix(digits, rest);
    StripOrdinalsNoMatch(digits + rest);
    Seqs.Uncons(digits, rest, StripOrdinals(rest));
    if |digits| > 1 {
      StripOrdinalsKeepsBareDigits(digits[1..], rest);
    } else {
      Seqs.EmptyNeutral(rest);
      Seqs.EmptyNeutral(StripOrdinals(rest));
    }
  }

  /** Where no match starts, the first character is copied and the scan moves on by one. */
  lemma StripOrdinalsNoMatch(s: string)
    requires s != [] && !OrdinalAtStart(s)
    ensures StripOrdinals(s) == [s[0]] + StripOrdinals(s[1..])
  {
  }

  lemma NoMatchBeforeBareSuffix(digits: string, rest: string)
    requires digits != [] && AllDigits(digits)
    requires rest == [] || !IsDigit(rest[0])
    requires !(|rest| >= 2 && IsOrdinalSuffix(rest[..2]))
    ensures !OrdinalAtStart(digits + rest)
  {
    var s := digits + rest;
    DigitRunStops(digits, rest);
    DigitRunStops(digits, []);
    assert digits + [] == digits;
    var k := DigitRun(s);
    assert k == |digits|;
    if |rest| >= 2 {
      assert s[k..k + 2] == rest[..2];
    }
  }

  /** Text without digits is copied unchanged. */
  lemma {:induction false} StripOrdinalsKeepsText(text: string, rest: string)
    requires NoDigits(text)
    ensures StripOrdinals(text + rest) == text + StripOrdinals(rest)
    decreases |text|
  {
    if text == [] {
      Seqs.EmptyNeutral(rest);
    } else {
      Seqs.Uncons(text, rest, StripOrdinals(rest));
      StripOrdinalsNoMatch(text + rest);
      StripOrdinalsKeepsText(text[1..], rest);
    }
  }

  // ---------------------------------------------------------------------
  // datetime.strptime(s, '%A %d %B %Y')
  // ---------------------------------------------------------------------

  /** %A: a full English weekday name, in any letter case. Which day it names is not used. */
  predicate IsWeekdayName(t: string) {
    exists i | 0 <= i < |WeekdayNames| :: EqualsIgnoreCase(t, WeekdayNames[i])
  }

  /** The first of names[from..] that t spells, ignoring case. */
  function NameIndex(t: string, names: seq<string>, from: nat): (r: Option<nat>)
    requires from <= |names|
    ensures r.Some? ==> from <= r.value < |names| && EqualsIgnoreCase(t, names[r.value])
    ensures r.None? ==> forall j | from <= j < |names| :: !EqualsIgnoreCase(t, names[j])
    decreases |names| - from
  {
    if from == |names| then None
    else if EqualsIgnoreCase(t, names[from]) then Some(from)
    else NameIndex(t, names, from + 1)
  }

  /** %B: a full English month name, in any letter case, as its number. */
  function MonthField(t: string): (r: Option<int>)
    ensures r.Some? ==> 1 <= r.value <= 12 && EqualsIgnoreCase(t, MonthNames[r.value - 1])
    ensures r.None? ==> forall j | 0 <= j < 12 :: !EqualsIgnoreCase(t, MonthNames[j])
  {
    match NameIndex(t, MonthNames, 0)
    case None => None
    case Some(i) => Some(i + 1)
  }

  /** %d, the pattern 3[01]|[12]\d|0[1-9]|[1-9]: a day number from 1 to 31, in one or two digits. */
  function DayField(t: string): (r: Option<int>)
    ensures r.Some? ==> 1 <= r.value <= 31
  {
    if |t| == 1 && IsDigit(t[0]) && t[0] != '0' then Some(DigitValue(t[0]))
    else if |t| == 2 && AllDigits(t) && 1 <= DigitsValue(t) <= 31 then Some(DigitsValue(t))
    else None
  }

  /** %Y: exactly four digits. */
  function YearField(t: string): Option<int> {
    if |t| == 4 && AllDigits(t) then Some(DigitsValue(t)) else None
  }

  /**
   * strptime(s, '%A %d %B %Y').date(). Each space of the format matches a
   * run of whitespace; the match must cover all of s; the weekday must be a
   * name but is otherwise ignored; an impossible date raises (None here).
   */
  function ReadWeekdayDayMonthYear(s: string): (r: Option<Date>)
    ensures r.Some? ==> ValidDate(r.value)
  {
    var w := Words(s);
    if !Trimmed(s) || |w| != 4 || !IsWeekdayName(w[0]) then None
    else
      match (DayField(w[1]), MonthField(w[2]), YearField(w[3]))
      case (Some(d), Some(m), Some(y)) =>
        if ValidDate(Date(y, m, d)) then Some(Date(y, m, d)) else None
      case _ => None
  }

  // ---------------------------------------------------------------------
  // parse_pcc_date
  // ---------------------------------------------------------------------

  /**
   * parse_pcc_date(dateStr) with CURRENT_YEAR = currentYear and
   * datetime.now().date() = today. None stands for the function's None.
   */
  function ParsePccDate(dateStr: string, currentYear: nat, today: Date): (r: Option<Date>)
    requires ValidDate(today)
    ensures dateStr == [] ==> r == None
    ensures r.Some? ==> ValidDate(r.value)
  {
    if dateStr == [] then None
    else
      var cleaned := StripOrdinals(Strip(dateStr));
      match ReadWeekdayDayMonthYear(cleaned + " " + DecimalString(currentYear))
      case None => None
      case Some(parsed) =>
        if DaysBetween(parsed, today) > PastWindowDays then
          ReadWeekdayDayMonthYear(cleaned + " " + DecimalString(currentYear + 1))
        else Some(parsed)
  }

  // ---------------------------------------------------------------------
  // What parse_pcc_date computes, stated on the heading's fields
  // ---------------------------------------------------------------------

  /** A year-less "weekday day month" text, read as its day and month. */
  function DayMonthFields(cleaned: string): Option<(int, int)> {
    var w := Words(cleaned);
    if |w| != 3 || !IsWeekdayName(w[0]) then None
    else
      match (DayField(w[1]), MonthField(w[2]))
      case (Some(d), Some(m)) => Some((d, m))
      case _ => None
  }

  /** The day and month a heading names, once stripped and rid of ordinal suffixes; None when it does not read as one. */
  function HeadingDayMonth(dateStr: string): Option<(int, int)> {
    DayMonthFields(StripOrdinals(Strip(dateStr)))
  }

  /** The date strptime yields for this day and month once year y is appended: f"{y}" must be four digits and the date real. */
  function DateInYear(y: int, month: int, day: int): (r: Option<Date>)
    ensures r.Some? ==> ValidDate(r.value) && r.value == Date(y, month, day)
  {
    if 1000 <= y && ValidDate(Date(y, month, day)) then Some(Date(y, month, day)) else None
  }

  /**
   * The year rule: the day and month in the current year, unless that is
   * more than 60 days before today, in which case the same day and month
   * of the following year. The current year's date must exist for either.
   */
  function ResolveYear(day: int, month: int, currentYear: int, today: Date): Option<Date>
    requires ValidDate(today)
  {
    match DateInYear(currentYear, month, day)
    case None => None
    case Some(first) =>
      if DaysBetween(first, today) > PastWindowDays then DateInYear(currentYear + 1, month, day)
      else Some(first)
  }

  lemma YearFieldOfDecimal(y: nat)
    ensures YearField(DecimalString(y)) == if 1000 <= y <= 9999 then Some(y) else None
  {
    var s := DecimalString(y);
    if y < 10 {
      DecimalLength(y, 0);
    } else if y < 100 {
      DecimalLength(y, 1);
    } else if y < 1000 {
      DecimalLength(y, 2);
    } else if y < 10000 {
      DecimalLength(y, 3);
      DecimalRoundTrip(y);
    } else {
      var k := 4;
      while Pow10(k + 1) <= y
        invariant k >= 4 && Pow10(k) <= y
        decreases y - Pow10(k)
      {
        k := k + 1;
      }
      DecimalLength(y, k);
    }
  }

  /** Appending " <year>" to a year-less heading and reading it with '%A %d %B %Y'. */
  lemma ReadWithAppendedYear(cleaned: string, y: nat)
    requires cleaned == [] || !IsSpace(cleaned[0])
    ensures ReadWeekdayDayMonthYear(cleaned + " " + DecimalString(y)) ==
      match DayMonthFields(cleaned)
      case None => None
      case Some((d, m)) => DateInYear(y, m, d)
  {
    var ys := DecimalString(y);
    var s := cleaned + " " + ys;
    WordsAppend(cleaned, " ", ys);
    WordsOfWord(ys);
    YearFieldOfDecimal(y);
    var w := Words(s);
    assert w == Words(cleaned) + [ys];
    if cleaned != [] {
      assert s[0] == cleaned[0];
      assert Trimmed(s);
    } else {
      assert Words(cleaned) == [];
    }
    if |Words(cleaned)| == 3 {
      assert w[..3] == Words(cleaned) && w[3] == ys;
    }
  }

  /** parse_pcc_date reads the heading's day and month and applies the year rule to them. */
  lemma {:induction false} ParsePccDateResolvesYear(dateStr: string, currentYear: nat, today: Date)
    requires ValidDate(today)
    ensures ParsePccDate(dateStr, currentYear, today) ==
      match HeadingDayMonth(dateStr)
      case None => None
      case Some((d, m)) => ResolveYear(d, m, currentYear, today)
  {
    var cleaned := StripOrdinals(Strip(dateStr));
    assert cleaned == [] || !IsSpace(cleaned[0]);
    ReadWithAppendedYear(cleaned, currentYear);
    ReadWithAppendedYear(cleaned, currentYear + 1);
    if dateStr == [] {
      assert Strip(dateStr) == [];
      assert Words(cleaned) == [];
    }
  }

  /**
   * On success the date has the heading's day and month; its year is the
   * current year if that date is at most 60 days before today and the next
   * year otherwise.
   */
  lemma ParsePccDateKeepsDayMonth(dateStr: string, currentYear: nat, today: Date)
    requires ValidDate(today)
    requires ParsePccDate(dateStr, currentYear, today).Some?
    ensures var r := ParsePccDate(dateStr, currentYear, today).value;
      HeadingDayMonth(dateStr) == Some((r.day, r.month))
      && ValidDate(Date(currentYear, r.month, r.day))
      && r.year == if DaysBetween(Date(currentYear, r.month, r.day), today) > PastWindowDays
                   then currentYear + 1 else currentYear
  {
    ParsePccDateResolvesYear(dateStr, currentYear, today);
  }

  /** Stripping a "weekday day[suffix] month" heading leaves "weekday day month". */
  lemma CleanedHeading(wd: string, ds: string, suffix: string, mn: string)
    requires IsName(wd) && IsName(mn) && ds != [] && AllDigits(ds)
    requires suffix == [] || IsOrdinalSuffix(suffix)
    ensures StripOrdinals(Strip(wd + " " + ds + suffix + " " + mn)) == wd + " " + ds + " " + mn
  {
    var p := wd + " ";
    var tail := " " + mn;
    var q := ds + suffix + tail;
    var s := wd + " " + ds + suffix + " " + mn;
    HeadingPieces(wd, ds, suffix, mn);
    calc {
      StripOrdinals(Strip(s));
      { StripTrimmed(s); }
      StripOrdinals(s);
      StripOrdinals(p + q);
      { StripOrdinalsKeepsText(p, q); }
      p + StripOrdinals(q);
      { StripDayNumber(ds, suffix, tail); }
      p + (ds + StripOrdinals(tail));
      { StripOrdinalsKeepsText(tail, []); assert tail + [] == tail; }
      p + (ds + tail);
    }
  }

  /** How the pieces of a heading fit together, and that the text around the day has no digits. */
  lemma HeadingPieces(wd: string, ds: string, suffix: string, mn: string)
    requires IsName(wd) && IsName(mn)
    ensures var s := wd + " " + ds + suffix + " " + mn;
      s == (wd + " ") + (ds + suffix + (" " + mn)) && Trimmed(s)
      && NoDigits(wd + " ") && NoDigits(" " + mn)
      && (wd + " ") + (ds + (" " + mn)) == wd + " " + ds + " " + mn
  {
    var s := wd + " " + ds + suffix + " " + mn;
    assert s[0] == wd[0];
    assert s[|s| - 1] == mn[|mn| - 1];
    assert (wd + " ") + (ds + suffix + (" " + mn)) == s;
    assert (wd + " ") + (ds + (" " + mn)) == wd + " " + ds + " " + mn;
  }

  /** The day number keeps its digits and loses its suffix, if it has one, when a space follows. */
  lemma StripDayNumber(ds: string, suffix: string, tail: string)
    requires ds != [] && AllDigits(ds)
    requires suffix == [] || IsOrdinalSuffix(suffix)
    requires tail != [] && tail[0] == ' '
    ensures StripOrdinals(ds + suffix + tail) == ds + StripOrdinals(tail)
  {
    if suffix == [] {
      assert ds + suffix + tail == ds + tail;
      if |tail| >= 2 && IsOrdinalSuffix(tail[..2]) {
        assert tail[..2][0] == ' ';
        SuffixStartsWithLetter(tail[..2]);
      }
      StripOrdinalsKeepsBareDigits(ds, tail);
    } else {
      StripOrdinalsDropsSuffix(ds, suffix, tail);
    }
  }

  lemma WordsOfThree(a: string, b: string, c: string)
    requires a != [] && b != [] && c != [] && NoSpace(a) && NoSpace(b) && NoSpace(c)
    ensures Words(a + " " + b + " " + c) == [a, b, c]
  {
    assert a + " " + b + " " + c == a + " " + (b + " " + c);
    WordsAppend(a, " ", b + " " + c);
    WordsAppend(b, " ", c);
    WordsOfWord(a);
    WordsOfWord(b);
    WordsOfWord(c);
  }

  /** A heading "weekday day[suffix] month" reads as that day and month. */
  lemma HeadingRoundTrip(weekday: nat, day: nat, suffix: string, month: int)
    requires weekday < 7 && 1 <= month <= 12 && 1 <= day <= 31
    requires suffix == [] || IsOrdinalSuffix(suffix)
    ensures HeadingDayMonth(WeekdayNames[weekday] + " " + DecimalString(day) + suffix + " " + MonthNames[month - 1])
      == Some((day, month))
  {
    var wd, ds, mn := WeekdayNames[weekday], DecimalString(day), MonthNames[month - 1];
    NamesAreWords();
    NameShape(wd);
    NameShape(mn);
    CleanedHeading(wd, ds, suffix, mn);
    WordsOfThree(wd, ds, mn);
    assert EqualsIgnoreCase(wd, WeekdayNames[weekday]);
    DayFieldOfDecimal(day);
    MonthFieldOfName(month);
  }

  lemma DayFieldOfDecimal(day: nat)
    requires 1 <= day <= 31
    ensures DayField(DecimalString(day)) == Some(day)
  {
    DecimalRoundTrip(day);
    if day < 10 {
      DecimalLength(day, 0);
    } else {
      DecimalLength(day, 1);
    }
  }

  /** Two month names that match ignoring case are the same month. */
  lemma MonthNamesDistinct(i: nat, j: nat)
    requires i < 12 && j < 12 && EqualsIgnoreCase(MonthNames[i], MonthNames[j])
    ensures i == j
  {
    var a, b := MonthNames[i], MonthNames[j];
    assert |a| >= 3;
    assert LowerChar(a[0]) == LowerChar(b[0]);
    assert LowerChar(a[2]) == LowerChar(b[2]);
  }

  lemma MonthFieldOfName(month: int)
    requires 1 <= month <= 12
    ensures MonthField(MonthNames[month - 1]) == Some(month)
  {
    var t := MonthNames[month - 1];
    var r := MonthField(t);
    assert EqualsIgnoreCase(t, MonthNames[month - 1]);
    MonthNamesDistinct(r.value - 1, month - 1);
  }

  // ---------------------------------------------------------------------
  // Instances
  // ---------------------------------------------------------------------

  lemma ThursdayThirdApril(today: Date)
    requires ValidDate(today)
    ensures ParsePccDate("Thursday 3rd April", 2025, today) == ResolveYear(3, 4, 2025, today)
  {
    assert "Thursday 3rd April" == WeekdayNames[3] + " " + DecimalString(3) + "rd" + " " + MonthNames[3];
    HeadingRoundTrip(3, 3, "rd", 4);
    ParsePccDateResolvesYear("Thursday 3rd April", 2025, today);
  }

  /** A heading seen a month before its date keeps the current year. */
  lemma HeadingAheadKeepsCurrentYear(today: Date)
    requires today == Date(2025, 3, 1)
    ensures ParsePccDate("Thursday 3rd April", 2025, today) == Some(Date(2025, 4, 3))
  {
    AprilThirdFromMarch(today);
    ThursdayThirdApril(today);
  }

  lemma AprilThirdFromMarch(today: Date)
    requires today == Date(2025, 3, 1)
    ensures ResolveYear(3, 4, 2025, today) == Some(Date(2025, 4, 3))
  {
    assert DaysBetween(Date(2025, 4, 3), today) == -33;
  }

  /** The same heading seen in December means the April of the next year. */
  lemma HeadingLongPastMeansNextYear(today: Date)
    requires today == Date(2025, 12, 10)
    ensures ParsePccDate("Thursday 3rd April", 2025, today) == Some(Date(2026, 4, 3))
  {
    AprilThirdFromDecember(today);
    ThursdayThirdApril(today);
  }

  lemma AprilThirdFromDecember(today: Date)
    requires today == Date(2025, 12, 10)
    ensures ResolveYear(3, 4, 2025, today) == Some(Date(2026, 4, 3))
  {
    assert DaysBetween(Date(2025, 4, 3), today) == 251;
  }

  /**
   * A 29 February heading is rejected in a common year even when the next
   * year, the one it would be moved to, is a leap year: the first reading,
   * with the current year, must already succeed.
   */
  lemma LeapDayNeedsCurrentLeapYear(heading: string, today: Date)
    requires heading == "Tuesday 29th February" && today == Date(2027, 12, 1)
    ensures ValidDate(Date(2028, 2, 29))
    ensures ParsePccDate(heading, 2027, today) == None
  {
    LeapDayFields(heading);
    ParsePccDateResolvesYear(heading, 2027, today);
    assert DateInYear(2027, 2, 29) == None;
  }

  lemma LeapDayFields(heading: string)
    requires heading == "Tuesday 29th February"
    ensures HeadingDayMonth(heading) == Some((29, 2))
  {
    assert heading == WeekdayNames[1] + " " + DecimalString(29) + "th" + " " + MonthNames[1];
    HeadingRoundTrip(1, 29, "th", 2);
  }
}
