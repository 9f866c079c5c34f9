/**
 * parse_pcc_time: a 12-hour listing time such as "12:00 pm" becomes the
 * zero-padded 24-hour text "12:00". The text is read with the strptime
 * format '%I:%M %p' (case does not matter) and written back with '%H:%M'.
 */
module ClockTime {
  import Seqs
  import opened Optional
  import opened Text

  datatype Meridiem = AM | PM

  /** A reading of '%I:%M %p': hour 1..12, minute 0..59, am or pm. */
  datatype Clock12 = Clock12(hour: int, minute: int, meridiem: Meridiem)

  predicate ValidClock12(c: Clock12) {
    1 <= c.hour <= 12 && 0 <= c.minute <= 59
  }

  /** %I, the pattern 1[0-2]|0[1-9]|[1-9]| [1-9]: an hour from 1 to 12, in one digit, two digits or a space and a digit. */
  function HourField(t: string): (r: Option<int>)
    ensures r.Some? ==> 1 <= r.value <= 12
  {
    if |t| == 1 && IsDigit(t[0]) && t[0] != '0' then Some(DigitValue(t[0]))
    else if |t| == 2 && t[0] == ' ' && IsDigit(t[1]) && t[1] != '0' then Some(DigitValue(t[1]))
    else if |t| == 2 && AllDigits(t) && 1 <= DigitsValue(t) <= 12 then Some(DigitsValue(t))
    else None
  }

  /** %M, the pattern [0-5]\d|\d: a minute from 0 to 59, in two digits or, below 10, in one. */
  function MinuteField(t: string): (r: Option<int>)
    ensures r.Some? ==> 0 <= r.value <= 59
  {
    if |t| == 1 && IsDigit(t[0]) then Some(DigitValue(t[0]))
    else if |t| == 2 && AllDigits(t) && DigitsValue(t) <= 59 then Some(DigitsValue(t))
    else None
  }

  /** %p: "am" or "pm", in any letter case. */
  function MeridiemField(t: string): Option<Meridiem> {
    if EqualsIgnoreCase(t, "am") then Some(AM)
    else if EqualsIgnoreCase(t, "pm") then Some(PM)
    else None
  }

  /**
   * strptime(s, '%I:%M %p'): the hour, ':', the minute, a run of at least
   * one whitespace character (what the format's space stands for), the
   * meridiem, and nothing after it. Every %I reading is one or two
   * characters long and is followed by ':', so the ':' is at index 1 or 2.
   * The minute is two characters exactly when its second one is a digit:
   * otherwise [0-5]\d cannot match, and a one-digit minute followed by a
   * digit leaves no whitespace for the gap.
   */
  function ReadClock12(s: string): (r: Option<Clock12>)
    ensures r.Some? ==> ValidClock12(r.value)
  {
    var h := if |s| >= 2 && s[1] == ':' then 1 else 2;
    var g := if h + 2 < |s| && IsDigit(s[h + 2]) then h + 3 else h + 2;
    if |s| < g + 3 || s[h] != ':' || !AllSpace(s[g..|s| - 2]) then None
    else
      match (HourField(s[..h]), MinuteField(s[h + 1..g]), MeridiemField(s[|s| - 2..]))
      case (Some(hour), Some(minute), Some(m)) => Some(Clock12(hour, minute, m))
      case _ => None
  }

  /** The 24-hour hour of a 12-hour reading: 12 am is 0, 12 pm is 12, other pm hours add 12. */
  function To24(c: Clock12): (h: int)
    requires ValidClock12(c)
    ensures 0 <= h <= 23
    ensures c.meridiem == AM <==> h < 12
    ensures h % 12 == c.hour % 12
  {
    match c.meridiem
    case AM => if c.hour == 12 then 0 else c.hour
    case PM => if c.hour == 12 then 12 else c.hour + 12
  }

  /** The 12-hour reading of a 24-hour hour and minute. */
  function From24(h: int, minute: int): (c: Clock12)
    requires 0 <= h <= 23 && 0 <= minute <= 59
    ensures ValidClock12(c)
  {
    Clock12(if h == 0 then 12 else if h > 12 then h - 12 else h, minute, if h < 12 then AM else PM)
  }

  /** The conversion is a bijection between 12-hour readings and 24-hour hours. */
  lemma To24Bijective(c: Clock12, h: int)
    requires ValidClock12(c) && 0 <= h <= 23
    ensures From24(To24(c), c.minute) == c
    ensures To24(From24(h, c.minute)) == h
  {
  }

  /** strftime('%H:%M'): two digits of the hour, ':', two digits of the minute. */
  function ClockText(h: int, minute: int): (t: string)
    requires 0 <= h <= 23 && 0 <= minute <= 59
    ensures IsClockText(t)
    ensures DigitsValue(t[..2]) == h && DigitsValue(t[3..]) == minute
  {
    var t := Pad2(h) + ":" + Pad2(minute);
    assert t[..2] == Pad2(h) && t[3..] == Pad2(minute);
    t
  }

  /** Zero-padded 24-hour "HH:MM" text. */
  predicate IsClockText(t: string) {
    |t| == 5 && t[2] == ':' && AllDigits(t[..2]) && AllDigits(t[3..])
    && DigitsValue(t[..2]) <= 23 && DigitsValue(t[3..]) <= 59
  }

  /** parse_pcc_time(timeStr); None stands for the function's None. */
  function ParsePccTime(timeStr: string): (r: Option<string>)
    ensures timeStr == [] ==> r == None
    ensures r.Some? ==> IsClockText(r.value)
  {
    if timeStr == [] then None
    else
      match ReadClock12(timeStr)
      case None => None
      case Some(c) => Some(ClockText(To24(c), c.minute))
  }

  // ---------------------------------------------------------------------
  // Exactly which texts are accepted
  // ---------------------------------------------------------------------

  /** How an hour below 10 is written: "7", "07" or " 7". */
  datatype HourPad = Bare | Zero | Blank

  /** An hour as a listing may write it; hours from 10 up have one spelling. */
  function HourText(hour: int, pad: HourPad): string
    requires 1 <= hour <= 12
  {
    if hour < 10 && pad == Zero then "0" + DecimalString(hour)
    else if hour < 10 && pad == Blank then " " + DecimalString(hour)
    else DecimalString(hour)
  }

  /** A minute as a listing may write it: "05", or "5" when unpadded and below 10. */
  function MinuteText(minute: int, padded: bool): string
    requires 0 <= minute <= 59
  {
    if minute < 10 && !padded then [DigitChar(minute)] else Pad2(minute)
  }

  /** A 12-hour time text: hour, ':', minute, whitespace, meridiem. */
  function TimeText(hour: int, pad: HourPad, minute: int, padded: bool, gap: string, meridiem: string): string
    requires 1 <= hour <= 12 && 0 <= minute <= 59
  {
    HourText(hour, pad) + ":" + MinuteText(minute, padded) + gap + meridiem
  }

  lemma HourTextShape(hour: int, pad: HourPad)
    requires 1 <= hour <= 12
    ensures var t := HourText(hour, pad);
      (|t| == 1 || |t| == 2) && (|t| == 2 ==> IsDigit(t[1])) && HourField(t) == Some(hour)
  {
    DecimalRoundTrip(hour);
    if hour < 10 {
      DecimalLength(hour, 0);
      var t := HourText(hour, pad);
      if pad == Zero {
        DigitsValueSnoc("0", DecimalString(hour)[0]);
        assert t == "0" + [DecimalString(hour)[0]];
        assert DigitsValue("0") == 0 by { assert "0"[..0] == []; }
      } else if pad == Blank {
        assert t == " " + [DecimalString(hour)[0]];
      }
    } else {
      DecimalLength(hour, 1);
    }
  }

  lemma MinuteTextShape(minute: int, padded: bool)
    requires 0 <= minute <= 59
    ensures var t := MinuteText(minute, padded);
      (|t| == 1 || |t| == 2) && AllDigits(t) && MinuteField(t) == Some(minute)
  {
  }

  /** Every well-formed 12-hour text is accepted and converted: this hour, this minute, 24-hour form. */
  lemma ParsePccTimeAccepts(hour: int, pad: HourPad, minute: int, padded: bool, gap: string, meridiem: string)
    requires 1 <= hour <= 12 && 0 <= minute <= 59
    requires gap != [] && AllSpace(gap) && MeridiemField(meridiem).Some?
    ensures var c := Clock12(hour, minute, MeridiemField(meridiem).value);
      ParsePccTime(TimeText(hour, pad, minute, padded, gap, meridiem)) == Some(ClockText(To24(c), minute))
  {
    var s, ht, mt := TimeText(hour, pad, minute, padded, gap, meridiem), HourText(hour, pad), MinuteText(minute, padded);
    TimeTextLayout(hour, pad, minute, padded, gap, meridiem);
    HourTextShape(hour, pad);
    MinuteTextShape(minute, padded);
    ReadClock12Pieces(s, |ht|, |ht| + 1 + |mt|, Clock12(hour, minute, MeridiemField(meridiem).value));
  }

  /** ReadClock12 of a text whose hour ends at h and whose minute ends at g, with the pieces in place. */
  lemma ReadClock12Pieces(s: string, h: nat, g: nat, c: Clock12)
    requires (h == 1 || h == 2) && (g == h + 2 || g == h + 3) && |s| >= g + 3
    requires (|s| >= 2 && s[1] == ':') <==> h == 1
    requires s[h] == ':' && (IsDigit(s[h + 2]) <==> g == h + 3)
    requires AllSpace(s[g..|s| - 2])
    requires HourField(s[..h]) == Some(c.hour) && MinuteField(s[h + 1..g]) == Some(c.minute)
    requires MeridiemField(s[|s| - 2..]) == Some(c.meridiem)
    ensures ReadClock12(s) == Some(c)
  {
  }

  /** Where the pieces of a time text sit: hour, ':' at index h, minute up to g, gap, and the two meridiem letters. */
  lemma TimeTextLayout(hour: int, pad: HourPad, minute: int, padded: bool, gap: string, meridiem: string)
    requires 1 <= hour <= 12 && 0 <= minute <= 59
    requires gap != [] && AllSpace(gap) && |meridiem| == 2
    ensures var s, ht, mt := TimeText(hour, pad, minute, padded, gap, meridiem), HourText(hour, pad), MinuteText(minute, padded);
      var h, g := |ht|, |ht| + 1 + |mt|;
      (|s| >= 2 && s[1] == ':' <==> h == 1) && s[h] == ':' && (h + 2 < |s| && IsDigit(s[h + 2]) <==> |mt| == 2)
      && |s| >= g + 3 && s[..h] == ht && s[h + 1..g] == mt && s[g..|s| - 2] == gap && s[|s| - 2..] == meridiem
  {
    var ht, mt := HourText(hour, pad), MinuteText(minute, padded);
    HourTextShape(hour, pad);
    MinuteTextShape(minute, padded);
    var s := TimeText(hour, pad, minute, padded, gap, meridiem);
    var h, g := |ht|, |ht| + 1 + |mt|;
    assert s[h] == ':';
    assert h == 2 ==> s[1] != ':' by {
      if h == 2 { assert s[1] == ht[1]; }
    }
    assert IsDigit(s[h + 2]) <==> |mt| == 2 by {
      if |mt| == 2 { assert s[h + 2] == mt[1]; } else { assert s[h + 2] == gap[0]; }
    }
    assert s[..h] == ht;
    assert s[h + 1..g] == mt;
    assert s[g..|s| - 2] == gap;
    assert s[|s| - 2..] == meridiem;
  }

  /** Only such texts are accepted: a successful parse comes from some hour, minute, gap and meridiem. */
  lemma ParsePccTimeOnlyAccepts(s: string)
    requires ParsePccTime(s).Some?
    ensures exists hour, pad, minute, padded, gap, meridiem
      | 1 <= hour <= 12 && 0 <= minute <= 59 && gap != [] && AllSpace(gap) && MeridiemField(meridiem).Some?
      :: s == TimeText(hour, pad, minute, padded, gap, meridiem)
         && ParsePccTime(s) == Some(ClockText(To24(Clock12(hour, minute, MeridiemField(meridiem).value)), minute))
  {
    var c := ReadClock12(s).value;
    var h := if |s| >= 2 && s[1] == ':' then 1 else 2;
    var g := if h + 2 < |s| && IsDigit(s[h + 2]) then h + 3 else h + 2;
    var pad := if h == 2 && s[0] == '0' then Zero else if h == 2 && s[0] == ' ' then Blank else Bare;
    ReadClock12Shape(s, c, h, g, pad, g == h + 3);
  }

  /** A text ReadClock12 accepts, cut into the pieces TimeText puts together. */
  lemma ReadClock12Shape(s: string, c: Clock12, h: nat, g: nat, pad: HourPad, padded: bool)
    requires ReadClock12(s) == Some(c)
    requires h == (if |s| >= 2 && s[1] == ':' then 1 else 2)
    requires g == (if h + 2 < |s| && IsDigit(s[h + 2]) then h + 3 else h + 2)
    requires pad == (if h == 2 && s[0] == '0' then Zero else if h == 2 && s[0] == ' ' then Blank else Bare)
    requires padded == (g == h + 3)
    ensures g + 3 <= |s| && s[g..|s| - 2] != [] && AllSpace(s[g..|s| - 2])
    ensures MeridiemField(s[|s| - 2..]) == Some(c.meridiem)
    ensures s == TimeText(c.hour, pad, c.minute, padded, s[g..|s| - 2], s[|s| - 2..])
  {
    HourTextDetermined(s[..h], c.hour, pad);
    MinuteTextDetermined(s[h + 1..g], c.minute, padded);
    Seqs.FiveParts(s, h, g, |s| - 2);
  }

  /** The hour text that HourField reads as this hour is its spelling with the padding it shows. */
  lemma HourTextDetermined(t: string, hour: int, pad: HourPad)
    requires HourField(t) == Some(hour)
    requires pad == (if |t| == 2 && t[0] == '0' then Zero else if |t| == 2 && t[0] == ' ' then Blank else Bare)
    ensures HourText(hour, pad) == t
  {
    if |t| == 1 {
      OneCharHour(t, hour);
      assert HourText(hour, pad) == DecimalString(hour);
    } else if t[0] == ' ' {
      OneCharHour(t[1..], hour);
      assert t == " " + t[1..];
    } else {
      TwoDigitHour(t, hour, pad);
    }
  }

  /** A one-digit hour is its own decimal spelling. */
  lemma OneCharHour(t: string, hour: int)
    requires |t| == 1 && IsDigit(t[0]) && hour == DigitValue(t[0])
    ensures hour < 10 && DecimalString(hour) == t
  {
    assert DecimalString(hour) == [DigitChar(hour)];
  }

  /** A two-digit hour: "01".."09" is the zero-padded spelling, "10".."12" the plain one. */
  lemma TwoDigitHour(t: string, hour: int, pad: HourPad)
    requires |t| == 2 && AllDigits(t) && hour == DigitsValue(t) && 1 <= hour <= 12
    requires pad == (if t[0] == '0' then Zero else Bare)
    ensures HourText(hour, pad) == t
  {
    DigitsValueSnoc([t[0]], t[1]);
    Seqs.Pair(t);
    if t[0] == '0' {
      assert DecimalString(hour) == [DigitChar(hour)];
    } else {
      assert DecimalString(hour) == DecimalString(hour / 10) + [DigitChar(hour % 10)];
    }
  }

  /** The minute text that MinuteField reads as this minute is its spelling with the padding it shows. */
  lemma MinuteTextDetermined(t: string, minute: int, padded: bool)
    requires MinuteField(t) == Some(minute)
    requires padded == (|t| == 2)
    ensures MinuteText(minute, padded) == t
  {
    if |t| == 2 {
      DigitsValueSnoc([t[0]], t[1]);
      Seqs.Pair(t);
    }
  }

  /** Every accepted text has whitespace between minute and meridiem, so "12:00" and "3:30pm" are refused. */
  lemma WithoutSpaceRefused(s: string)
    requires NoSpace(s)
    ensures ParsePccTime(s) == None
  {
    AcceptedHasSpace(s);
  }

  lemma AcceptedHasSpace(s: string)
    ensures ReadClock12(s).Some? ==> !NoSpace(s)
  {
    var h := if |s| >= 2 && s[1] == ':' then 1 else 2;
    var g := if h + 2 < |s| && IsDigit(s[h + 2]) then h + 3 else h + 2;
    if ReadClock12(s).Some? {
      assert s[g..|s| - 2][0] == s[g];
    }
  }

  // ---------------------------------------------------------------------
  // The documented cases
  // ---------------------------------------------------------------------

  /** Midnight: "12:00 am" is "00:00". */
  lemma Midnight(s: string)
    requires s == "12:00 am"
    ensures ParsePccTime(s) == Some("00:00")
  {
    var gap, m := " ", "am";
    TwelveText(s, m);
    MeridiemReading(m);
    ParsePccTimeAccepts(12, Bare, 0, true, gap, m);
    assert To24(Clock12(12, 0, AM)) == 0;
    ClockTextValue(0, 0, "00:00");
  }

  /** Noon: "12:00 pm" is "12:00". */
  lemma Noon(s: string)
    requires s == "12:00 pm"
    ensures ParsePccTime(s) == Some("12:00")
  {
    var gap, m := " ", "pm";
    TwelveText(s, m);
    MeridiemReading(m);
    ParsePccTimeAccepts(12, Bare, 0, true, gap, m);
    assert To24(Clock12(12, 0, PM)) == 12;
    ClockTextValue(12, 0, "12:00");
  }

  /** Afternoon hours add twelve: "3:30 pm" is "15:30". */
  lemma HalfPastThree(s: string)
    requires s == "3:30 pm"
    ensures ParsePccTime(s) == Some("15:30")
  {
    var gap, m := " ", "pm";
    OneDigitHourText(s, 3, 30, m);
    MeridiemReading(m);
    ParsePccTimeAccepts(3, Bare, 30, true, gap, m);
    assert To24(Clock12(3, 30, PM)) == 15;
    ClockTextValue(15, 30, "15:30");
  }

  /** Letter case does not matter and minutes keep their leading zero: "1:05 PM" is "13:05". */
  lemma FivePastOne(s: string)
    requires s == "1:05 PM"
    ensures ParsePccTime(s) == Some("13:05")
  {
    var gap, m := " ", "PM";
    OneDigitHourText(s, 1, 5, m);
    MeridiemReading(m);
    ParsePccTimeAccepts(1, Bare, 5, true, gap, m);
    assert To24(Clock12(1, 5, PM)) == 13;
    ClockTextValue(13, 5, "13:05");
  }

  /** A minute may be written with one digit: "3:5 pm" is "15:05". */
  lemma FivePastThree(s: string)
    requires s == "3:5 pm"
    ensures ParsePccTime(s) == Some("15:05")
  {
    var gap, m := " ", "pm";
    OneDigitMinuteText(s, 3, 5, m);
    MeridiemReading(m);
    ParsePccTimeAccepts(3, Bare, 5, false, gap, m);
    assert To24(Clock12(3, 5, PM)) == 15;
    ClockTextValue(15, 5, "15:05");
  }

  /** %I also reads a space and a digit: " 3:30 pm" is "15:30". */
  lemma BlankPaddedHour(s: string)
    requires s == " 3:30 pm"
    ensures ParsePccTime(s) == Some("15:30")
  {
    var gap, m := " ", "pm";
    assert s == " " + [DigitChar(3)] + ":" + [DigitChar(3), DigitChar(0)] + gap + m;
    assert DecimalString(3) == [DigitChar(3)];
    assert s == TimeText(3, Blank, 30, true, gap, m);
    MeridiemReading(m);
    ParsePccTimeAccepts(3, Blank, 30, true, gap, m);
    assert To24(Clock12(3, 30, PM)) == 15;
    ClockTextValue(15, 30, "15:30");
  }

  /** "12:00 am" and "12:00 pm" as TimeText spells them. */
  lemma TwelveText(s: string, m: string)
    requires |m| == 2 && s == "12:00 " + m
    ensures s == TimeText(12, Bare, 0, true, " ", m)
  {
    assert DecimalString(12) == DecimalString(1) + [DigitChar(2)];
    assert Pad2(0) == [DigitChar(0), DigitChar(0)];
  }

  /** A one-digit hour, a two-digit minute, one space and a meridiem, as TimeText spells them. */
  lemma OneDigitHourText(s: string, hour: int, minute: int, m: string)
    requires 1 <= hour <= 9 && 0 <= minute <= 59 && |m| == 2
    requires s == [DigitChar(hour)] + ":" + [DigitChar(minute / 10), DigitChar(minute % 10)] + " " + m
    ensures s == TimeText(hour, Bare, minute, true, " ", m)
  {
  }

  /** A one-digit hour, a one-digit minute, one space and a meridiem, as TimeText spells them. */
  lemma OneDigitMinuteText(s: string, hour: int, minute: int, m: string)
    requires 1 <= hour <= 9 && 0 <= minute <= 9 && |m| == 2
    requires s == [DigitChar(hour)] + ":" + [DigitChar(minute)] + " " + m
    ensures s == TimeText(hour, Bare, minute, false, " ", m)
  {
  }

  /** %p reads "am", "pm", "AM" and "PM" as expected. */
  lemma MeridiemReading(m: string)
    requires m == "am" || m == "pm" || m == "AM" || m == "PM"
    ensures m == "am" || m == "AM" ==> MeridiemField(m) == Some(AM)
    ensures m == "pm" || m == "PM" ==> MeridiemField(m) == Some(PM)
  {
    if m == "pm" || m == "PM" {
      assert LowerChar(m[0]) != LowerChar("am"[0]);
    }
  }

  /** strftime('%H:%M') of an hour and minute, checked digit by digit. */
  lemma ClockTextValue(h: int, minute: int, t: string)
    requires 0 <= h <= 23 && 0 <= minute <= 59
    requires t == [DigitChar(h / 10), DigitChar(h % 10), ':', DigitChar(minute / 10), DigitChar(minute % 10)]
    ensures ClockText(h, minute) == t
  {
  }

  /** Hour 13 is refused even with a meridiem. */
  lemma HourThirteenRefused(s: string)
    requires s == "13:00 pm"
    ensures ParsePccTime(s) == None
  {
    var hour := s[..2];
    DigitsValueSnoc([], '1');
    DigitsValueSnoc("1", '3');
    assert hour == "1" + ['3'] && "1" == [] + ['1'];
  }

  /** Minute 60 is refused. */
  lemma MinuteSixtyRefused(s: string)
    requires s == "12:60 pm"
    ensures ParsePccTime(s) == None
  {
    var minute := s[3..5];
    DigitsValueSnoc([], '6');
    DigitsValueSnoc("6", '0');
    assert minute == "6" + ['0'] && "6" == [] + ['6'];
  }
}
