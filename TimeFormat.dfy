/**
 * The time helpers with the clock taken out: the token substitution of
 * `getTimeFromTimeStamp`, the millisecond arithmetic of `calculateStartDate`
 * and the `YYYY-MM-DD` rendering of `initialDateToString`. The local hour,
 * minute, second, millisecond and calendar fields that the source reads from
 * a `Date` are parameters here.
 */
module TimeFormat {
  import opened Text

  /**
   * `getTimeFromTimeStamp` once the local time fields are known: seven
   * `String.replace` calls with string patterns, each rewriting only the
   * first occurrence, in the fixed order hh, h, mm, m, ss, s, SSS. The padded
   * tokens, SSS included, are padded to two characters.
   */
  function GetTimeFromTimeStamp(timeFormat: string, hours: nat, minutes: nat, seconds: nat, milliseconds: nat): (r: string)
    ensures !HasTimeToken(timeFormat) ==> r == timeFormat
  {
    ReplaceAbsent(timeFormat, "hh", Pad2(hours));
    ReplaceAbsent(timeFormat, "h", NatToString(hours));
    ReplaceAbsent(timeFormat, "mm", Pad2(minutes));
    ReplaceAbsent(timeFormat, "m", NatToString(minutes));
    ReplaceAbsent(timeFormat, "ss", Pad2(seconds));
    ReplaceAbsent(timeFormat, "s", NatToString(seconds));
    var afterHours := ReplaceFirst(ReplaceFirst(timeFormat, "hh", Pad2(hours)), "h", NatToString(hours));
    var afterMinutes := ReplaceFirst(ReplaceFirst(afterHours, "mm", Pad2(minutes)), "m", NatToString(minutes));
    var afterSeconds := ReplaceFirst(ReplaceFirst(afterMinutes, "ss", Pad2(seconds)), "s", NatToString(seconds));
    ReplaceFirst(afterSeconds, "SSS", Pad2(milliseconds))
  }

  /**
   * `timeFormat` holds something one of the seven replacements can find: an
   * h, an m, an s, or the three letters SSS together. A lone S or SS is not a token.
   */
  predicate HasTimeToken(timeFormat: string) {
    || 'h' in timeFormat || 'm' in timeFormat || 's' in timeFormat
    || exists j :: 0 <= j <= |timeFormat| && OccursAt(timeFormat, "SSS", j)
  }

  const DefaultTimeFormat: string := "hh:mm:ss"

  /** A character that is not an ASCII digit does not occur in a run of digits. */
  lemma NonDigitAbsent(d: string, c: char)
    requires AllAsciiDigits(d) && !IsAsciiDigit(c)
    ensures c !in d
  {
    forall i | 0 <= i < |d| ensures d[i] != c {
    }
  }

  /**
   * A doubled token followed by its single form: the padded value takes the
   * doubled token's place and the single form then finds nothing to replace.
   */
  lemma PairStep(pre: string, c: char, post: string, padded: string, plain: string)
    requires c !in pre && c !in post && c !in padded
    ensures ReplaceFirst(ReplaceFirst(pre + [c, c] + post, [c, c], padded), [c], plain) == pre + padded + post
  {
    ReplaceAt(pre, [c, c], post, padded);
    ReplaceAbsent(pre + padded + post, [c], plain);
  }

  /**
   * With the default format and a valid time of day the result is exactly
   * `HH:MM:SS`: eight characters, three zero-padded two-digit groups that
   * read back as the hour, minute and second, separated by colons.
   */
  lemma DefaultFormatIsHhMmSs(hours: nat, minutes: nat, seconds: nat, milliseconds: nat)
    requires hours < 24 && minutes < 60 && seconds < 60
    ensures var r := GetTimeFromTimeStamp(DefaultTimeFormat, hours, minutes, seconds, milliseconds);
      && r == Pad2(hours) + ":" + Pad2(minutes) + ":" + Pad2(seconds)
      && |r| == 8 && r[2] == ':' && r[5] == ':'
      && AllAsciiDigits(r[0..2]) && AllAsciiDigits(r[3..5]) && AllAsciiDigits(r[6..8])
      && DigitsValue(r[0..2]) == hours && DigitsValue(r[3..5]) == minutes && DigitsValue(r[6..8]) == seconds
  {
    var hh, mm, ss := Pad2(hours), Pad2(minutes), Pad2(seconds);
    Pad2TwoDigits(hours);
    Pad2TwoDigits(minutes);
    Pad2TwoDigits(seconds);
    DefaultFormatSteps(hours, minutes, seconds, milliseconds);
    ColonSeparated(hh, mm, ss);
  }

  lemma ColonSeparated(hh: string, mm: string, ss: string)
    requires |hh| == 2 && |mm| == 2 && |ss| == 2
    ensures var r := hh + ":" + mm + ":" + ss;
      |r| == 8 && r[2] == ':' && r[5] == ':' && r[0..2] == hh && r[3..5] == mm && r[6..8] == ss
  {
  }

  /** The seven replacements on the default format, for any fields of digits. */
  lemma DefaultFormatSteps(hours: nat, minutes: nat, seconds: nat, milliseconds: nat)
    ensures GetTimeFromTimeStamp(DefaultTimeFormat, hours, minutes, seconds, milliseconds)
            == Pad2(hours) + ":" + Pad2(minutes) + ":" + Pad2(seconds)
  {
    var hh, mm, ss := Pad2(hours), Pad2(minutes), Pad2(seconds);
    HoursStep(hh, NatToString(hours));
    MinutesStep(hh, mm, NatToString(minutes));
    SecondsStep(hh, mm, ss, NatToString(seconds));
    MillisecondsStep(hh, mm, ss, Pad2(milliseconds));
  }

  lemma HoursStep(hh: string, h: string)
    requires AllAsciiDigits(hh)
    ensures ReplaceFirst(ReplaceFirst(DefaultTimeFormat, "hh", hh), "h", h) == hh + ":mm:ss"
  {
    assert DefaultTimeFormat == "" + ['h', 'h'] + ":mm:ss";
    HoursStepOn(hh, h);
  }

  lemma HoursStepOn(hh: string, h: string)
    requires AllAsciiDigits(hh)
    ensures ReplaceFirst(ReplaceFirst("" + ['h', 'h'] + ":mm:ss", "hh", hh), "h", h) == hh + ":mm:ss"
  {
    NonDigitAbsent(hh, 'h');
    PairStep("", 'h', ":mm:ss", hh, h);
  }

  lemma MinutesStep(hh: string, mm: string, m: string)
    requires AllAsciiDigits(hh) && AllAsciiDigits(mm)
    ensures ReplaceFirst(ReplaceFirst(hh + ":mm:ss", "mm", mm), "m", m) == hh + ":" + mm + ":ss"
  {
    NonDigitAbsent(hh, 'm');
    NonDigitAbsent(mm, 'm');
    assert hh + ":mm:ss" == (hh + ":") + ['m', 'm'] + ":ss";
    PairStep(hh + ":", 'm', ":ss", mm, m);
  }

  lemma SecondsStep(hh: string, mm: string, ss: string, s: string)
    requires AllAsciiDigits(hh) && AllAsciiDigits(mm) && AllAsciiDigits(ss)
    ensures ReplaceFirst(ReplaceFirst(hh + ":" + mm + ":ss", "ss", ss), "s", s) == hh + ":" + mm + ":" + ss
  {
    NonDigitAbsent(hh, 's');
    NonDigitAbsent(mm, 's');
    NonDigitAbsent(ss, 's');
    assert hh + ":" + mm + ":ss" == (hh + ":" + mm + ":") + ['s', 's'] + "";
    PairStep(hh + ":" + mm + ":", 's', "", ss, s);
  }

  lemma MillisecondsStep(hh: string, mm: string, ss: string, sss: string)
    requires AllAsciiDigits(hh) && AllAsciiDigits(mm) && AllAsciiDigits(ss)
    ensures ReplaceFirst(hh + ":" + mm + ":" + ss, "SSS", sss) == hh + ":" + mm + ":" + ss
  {
    NonDigitAbsent(hh, 'S');
    NonDigitAbsent(mm, 'S');
    NonDigitAbsent(ss, 'S');
    ReplaceAbsent(hh + ":" + mm + ":" + ss, "SSS", sss);
  }

  /** The minute, second and millisecond replacements leave a string without m, s and S alone. */
  lemma LaterTokensAbsent(t: string, minutes: nat, seconds: nat, milliseconds: nat)
    requires 'm' !in t && 's' !in t && 'S' !in t
    ensures ReplaceFirst(ReplaceFirst(ReplaceFirst(ReplaceFirst(ReplaceFirst(t,
              "mm", Pad2(minutes)), "m", NatToString(minutes)), "ss", Pad2(seconds)), "s", NatToString(seconds)),
              "SSS", Pad2(milliseconds)) == t
  {
    ReplaceAbsent(t, "mm", Pad2(minutes));
    ReplaceAbsent(t, "m", NatToString(minutes));
    ReplaceAbsent(t, "ss", Pad2(seconds));
    ReplaceAbsent(t, "s", NatToString(seconds));
    ReplaceAbsent(t, "SSS", Pad2(milliseconds));
  }

  /**
   * Only the first occurrence of a token is rewritten: in `"hh hh"` at 9
   * o'clock the first `hh` becomes `09`, and the unpadded `h` replacement then
   * takes the first `h` of the second `hh`.
   */
  lemma RepeatedTokenRewrittenOnce(minutes: nat, seconds: nat, milliseconds: nat)
    ensures GetTimeFromTimeStamp("hh hh", 9, minutes, seconds, milliseconds) == "09 9h"
  {
    assert ReplaceFirst(ReplaceFirst("hh hh", "hh", Pad2(9)), "h", NatToString(9)) == "09 9h" by {
      RepeatedHours();
    }
    LaterTokensAbsent("09 9h", minutes, seconds, milliseconds);
  }

  /** A one-digit value is rendered as its digit, and padded with one '0'. */
  lemma OneDigitRendered(n: nat)
    requires n < 10
    ensures NatToString(n) == [DigitChar(n)] && Pad2(n) == ['0', DigitChar(n)]
  {
    assert Pad2(n) == Repeat('0', 1) + [DigitChar(n)];
  }

  lemma RepeatedHours()
    ensures ReplaceFirst(ReplaceFirst("hh hh", "hh", Pad2(9)), "h", NatToString(9)) == "09 9h"
  {
    OneDigitRendered(9);
    assert DigitChar(9) == '9';
    assert ReplaceFirst("hh hh", "hh", "09") == "09 hh" by {
      ReplaceAt("", "hh", " hh", "09");
      assert "" + "hh" + " hh" == "hh hh" && "" + "09" + " hh" == "09 hh";
    }
    assert ReplaceFirst("09 hh", "h", "9") == "09 9h" by {
      ReplaceAt("09 ", "h", "h", "9");
      assert "09 " + "h" + "h" == "09 hh" && "09 " + "9" + "h" == "09 9h";
    }
  }

  /** The hour and minute replacements leave a string without h and m alone. */
  lemma EarlierTokensAbsent(t: string, hours: nat, minutes: nat)
    requires 'h' !in t && 'm' !in t
    ensures ReplaceFirst(ReplaceFirst(ReplaceFirst(ReplaceFirst(t,
              "hh", Pad2(hours)), "h", NatToString(hours)), "mm", Pad2(minutes)), "m", NatToString(minutes)) == t
  {
    ReplaceAbsent(t, "hh", Pad2(hours));
    ReplaceAbsent(t, "h", NatToString(hours));
    ReplaceAbsent(t, "mm", Pad2(minutes));
    ReplaceAbsent(t, "m", NatToString(minutes));
  }

  /** Milliseconds are padded to two characters, not three: 5 ms reads `05`. */
  lemma MillisecondsPaddedToTwo(hours: nat, minutes: nat)
    ensures GetTimeFromTimeStamp("ss.SSS", hours, minutes, 7, 5) == "07.05"
  {
    EarlierTokensAbsent("ss.SSS", hours, minutes);
    SecondsAndMilliseconds();
  }

  lemma SecondsAndMilliseconds()
    ensures ReplaceFirst(ReplaceFirst(ReplaceFirst("ss.SSS", "ss", Pad2(7)), "s", NatToString(7)), "SSS", Pad2(5)) == "07.05"
  {
    SevenSeconds();
    FiveMilliseconds();
  }

  lemma SevenSeconds()
    ensures ReplaceFirst(ReplaceFirst("ss.SSS", "ss", Pad2(7)), "s", NatToString(7)) == "07.SSS"
  {
    OneDigitRendered(7);
    assert DigitChar(7) == '7';
    assert "ss.SSS" == "" + ['s', 's'] + ".SSS";
    PairStep("", 's', ".SSS", "07", "7");
  }

  lemma FiveMilliseconds()
    ensures ReplaceFirst("07.SSS", "SSS", Pad2(5)) == "07.05"
  {
    OneDigitRendered(5);
    assert DigitChar(5) == '5';
    ReplaceAt("07.", "SSS", "", "05");
    assert "07." + "SSS" + "" == "07.SSS" && "07." + "05" + "" == "07.05";
  }

  const MsPerMinute: int := 60000

  /** The largest time value a `Date` holds (TimeClip, ECMA-262 section 21.4.1.31). */
  const MaxTimeValue: int := 8_640_000_000_000_000

  /** A `Date`: a time value in milliseconds, or `Invalid Date` once TimeClip rejects it. */
  datatype DateValue = Valid(time: int) | InvalidDate

  /** `new Date(t)` for an integral `t`. */
  function TimeClip(t: int): (d: DateValue)
    ensures d.Valid? <==> -MaxTimeValue <= t <= MaxTimeValue
    ensures d.Valid? ==> d.time == t
  {
    if -MaxTimeValue <= t <= MaxTimeValue then Valid(t) else InvalidDate
  }

  /**
   * `calculateStartDate`: the instant `duration` minutes before `endDate`, as
   * plain millisecond arithmetic, with no calendar involved.
   */
  function CalculateStartDate(endDate: int, duration: int): (d: DateValue)
    ensures d.Valid? ==> d.time + duration * MsPerMinute == endDate
    ensures d.Valid? <==> -MaxTimeValue <= endDate - duration * MsPerMinute <= MaxTimeValue
  {
    TimeClip(endDate - duration * MsPerMinute)
  }

  /** Going back d1 and then d2 minutes is going back d1 + d2 minutes. */
  lemma StartDateComposes(endDate: int, d1: int, d2: int)
    requires CalculateStartDate(endDate, d1).Valid?
    ensures CalculateStartDate(CalculateStartDate(endDate, d1).time, d2) == CalculateStartDate(endDate, d1 + d2)
  {
    assert (d1 + d2) * MsPerMinute == d1 * MsPerMinute + d2 * MsPerMinute;
  }

  /** A longer duration gives an earlier start. */
  lemma StartDateMonotone(endDate: int, d1: int, d2: int)
    requires d1 < d2
    requires CalculateStartDate(endDate, d1).Valid? && CalculateStartDate(endDate, d2).Valid?
    ensures CalculateStartDate(endDate, d2).time < CalculateStartDate(endDate, d1).time
  {
    assert d1 * MsPerMinute < d2 * MsPerMinute;
  }

  /**
   * `initialDateToString` given the local calendar fields of today:
   * `getFullYear()`, `getMonth()` (0-based) and `getDate()`. Month and day
   * are prefixed with '0' while shorter than two characters, then the three
   * are joined with '-'.
   */
  method InitialDateToString(fullYear: int, monthIndex: nat, date: nat) returns (s: string)
    requires monthIndex < 12 && 1 <= date <= 31
    ensures var y := IntToString(fullYear);
      && |s| == |y| + 6 && s[..|y|] == y && s[|y|] == '-' && s[|y| + 3] == '-'
      && AllAsciiDigits(s[|y| + 1..|y| + 3]) && DigitsValue(s[|y| + 1..|y| + 3]) == monthIndex + 1
      && AllAsciiDigits(s[|y| + 4..]) && DigitsValue(s[|y| + 4..]) == date
      && (fullYear >= 0 ==> Split(s, '-') == [y, s[|y| + 1..|y| + 3], s[|y| + 4..]])
  {
    var month := NatToString(monthIndex + 1);
    var day := NatToString(date);
    var year := IntToString(fullYear);
    NatToStringRoundTrip(monthIndex + 1);
    NatToStringRoundTrip(date);
    if |month| < 2 {
      LeadingZero(month);
      month := "0" + month;
    }
    if |day| < 2 {
      LeadingZero(day);
      day := "0" + day;
    }
    s := Join([year, month, day], '-');
    DashJoined(year, month, day);
  }

  /**
   * Where year, month and day sit in `[year, month, day].join('-')` with
   * two-digit month and day; with a year of digits only, splitting on '-'
   * gives the three parts back.
   */
  lemma DashJoined(year: string, month: string, day: string)
    requires |month| == 2 && |day| == 2 && AllAsciiDigits(month) && AllAsciiDigits(day)
    ensures var s := Join([year, month, day], '-');
      && |s| == |year| + 6 && s[..|year|] == year && s[|year|] == '-' && s[|year| + 3] == '-'
      && s[|year| + 1..|year| + 3] == month && s[|year| + 4..] == day
      && (AllAsciiDigits(year) ==> Split(s, '-') == [year, month, day])
  {
    if AllAsciiDigits(year) {
      NonDigitAbsent(year, '-');
      NonDigitAbsent(month, '-');
      NonDigitAbsent(day, '-');
      JoinSplit([year, month, day], '-');
    }
    assert [year, month, day][1..] == [month, day] && [month, day][1..] == [day];
    assert Join([month, day], '-') == month + "-" + day;
    var s := Join([year, month, day], '-');
    assert s == year + "-" + (month + "-" + day);
  }
}
