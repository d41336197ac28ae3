/**
 * `formatDuration` of src/lib/utils.ts: a number of minutes shown as
 * "Nm" below an hour, "Hh" on a whole hour and "Hh Mm" otherwise.
 * Its partner is ParseDuration, a reader of exactly the strings the
 * formatter can produce; the two are proved to be inverse bijections.
 */
module Duration {
  import opened Wrappers
  import opened Decimal

  const MinutesPerHour := 60

  /**
   * utils.ts formatDuration, on integral minutes. The text ends in "h"
   * exactly for a whole number of hours (at least one) and in "m" otherwise,
   * and it shows an hours field exactly from 60 minutes on.
   */
  function FormatDuration(minutes: int): (r: string)
    ensures |r| >= 2
    ensures r[|r| - 1] == 'h' <==> minutes >= MinutesPerHour && minutes % MinutesPerHour == 0
    ensures r[|r| - 1] == 'm' <==> !(minutes >= MinutesPerHour && minutes % MinutesPerHour == 0)
    ensures 'h' in r <==> minutes >= MinutesPerHour
  {
    if minutes < MinutesPerHour then
      IntToString(minutes) + "m"
    else
      var hours := minutes / MinutesPerHour;
      var remainingMinutes := minutes % MinutesPerHour;
      if remainingMinutes == 0 then NatToString(hours) + "h"
      else NatToString(hours) + "h " + NatToString(remainingMinutes) + "m"
  }

  /**
   * Reads a number written without leading zeros at the head of `s` and
   * returns it with the text that follows it.
   */
  function ReadNumber(s: string): Option<(nat, string)>
  {
    var k := DigitRun(s);
    if k > 0 && Canonical(s[..k]) then Some((ParseDigits(s[..k]), s[k..])) else None
  }

  /** A rendered number followed by a non-digit is read back with that same remainder. */
  lemma ReadRendered(n: nat, t: string)
    requires t == [] || !IsDigit(t[0])
    ensures ReadNumber(NatToString(n) + t) == Some((n, t))
  {
    var d := NatToString(n);
    DigitRunOfConcat(d, t);
    assert (d + t)[..|d|] == d && (d + t)[|d|..] == t;
    ParseNatToString(n);
  }

  /** What ReadNumber accepts is a rendered number followed by the remainder it returns. */
  lemma ReadSplits(s: string)
    requires ReadNumber(s).Some?
    ensures s == NatToString(ReadNumber(s).value.0) + ReadNumber(s).value.1
  {
    var k := DigitRun(s);
    NatToStringParse(s[..k]);
    assert s == s[..k] + s[k..];
  }

  /**
   * Reads "Nm" (N below 60, possibly negative), "Hh" (H at least 1) and
   * "Hh Mm" (H at least 1, M from 1 to 59), each number written without
   * leading zeros, and returns the total number of minutes H*60 + M.
   * Anything else is None.
   */
  function ParseDuration(s: string): Option<int>
  {
    if |s| > 0 && s[0] == '-' then
      ParseNegative(s[1..])
    else
      match ReadNumber(s)
      case None => None
      case Some((h, t)) => ParseAfterNumber(h, t)
  }

  /** What follows a minus sign: a positive number of minutes, then "m". */
  function ParseNegative(rest: string): Option<int>
  {
    match ReadNumber(rest)
    case Some((n, t)) => if t == "m" && n > 0 then Some(-(n as int)) else None
    case None => None
  }

  /** What follows a leading number n: "m" (n below 60), "h", or "h " and the minutes. */
  function ParseAfterNumber(n: nat, t: string): Option<int>
  {
    if t == "m" then
      if n < MinutesPerHour then Some(n as int) else None
    else if t == "h" then
      if n >= 1 then Some(n * MinutesPerHour) else None
    else if |t| >= 2 && t[..2] == "h " then
      ParseMinutesPart(n, t[2..])
    else None
  }

  /** The minutes after "Hh ": a number from 1 to 59, then "m". */
  function ParseMinutesPart(hours: nat, rest: string): Option<int>
  {
    match ReadNumber(rest)
    case Some((r, u)) =>
      if u == "m" && hours >= 1 && 1 <= r < MinutesPerHour then Some(hours * MinutesPerHour + r) else None
    case None => None
  }

  /** After the minus sign: the magnitude and "m" read back as the negative count. */
  lemma NegativeRendered(n: nat)
    requires n > 0
    ensures ParseNegative(NatToString(n) + "m") == Some(-(n as int))
  {
    ReadRendered(n, "m");
  }

  /** The text printed for a negative count. */
  lemma NegativeText(m: int)
    requires m < 0
    ensures FormatDuration(m) == "-" + (NatToString(-m) + "m")
  {
  }

  /** A negative count: a minus sign, the magnitude, then "m". */
  lemma FormatThenParseNegative(m: int)
    requires m < 0
    ensures ParseDuration(FormatDuration(m)) == Some(m)
  {
    var t := NatToString(-m) + "m";
    var s := "-" + t;
    NegativeText(m);
    assert |s| > 0 && s[0] == '-' && s[1..] == t;
    NegativeRendered(-m);
  }

  /** From 0 to 59: the rendering of the minutes, then "m". */
  lemma FormatThenParseMinutes(m: int)
    requires 0 <= m < MinutesPerHour
    ensures ParseDuration(FormatDuration(m)) == Some(m)
  {
    var s := NatToString(m) + "m";
    assert FormatDuration(m) == s;
    assert s[0] != '-';
    ReadRendered(m, "m");
  }

  /** Below an hour: the rendering of the (possibly negative) minutes, then "m". */
  lemma FormatThenParseBelowHour(m: int)
    requires m < MinutesPerHour
    ensures ParseDuration(FormatDuration(m)) == Some(m)
  {
    if m < 0 {
      FormatThenParseNegative(m);
    } else {
      FormatThenParseMinutes(m);
    }
  }

  /** A whole number of hours, at least one: the hours, then "h". */
  lemma FormatThenParseWholeHours(m: int)
    requires m >= MinutesPerHour && m % MinutesPerHour == 0
    ensures ParseDuration(FormatDuration(m)) == Some(m)
  {
    var h := m / MinutesPerHour;
    var s := NatToString(h) + "h";
    assert FormatDuration(m) == s;
    assert s[0] != '-';
    ReadRendered(h, "h");
  }

  /** The minutes part "<r>m" after "Hh " reads back as h*60 + r. */
  lemma MinutesPartRendered(h: nat, r: nat)
    requires h >= 1 && 1 <= r < MinutesPerHour
    ensures ParseMinutesPart(h, NatToString(r) + "m") == Some(h * MinutesPerHour + r)
  {
    ReadRendered(r, "m");
  }

  /** The text "h <r>m" after the hours reads back as h*60 + r. */
  lemma AfterHoursRendered(h: nat, r: nat)
    requires h >= 1 && 1 <= r < MinutesPerHour
    ensures ParseAfterNumber(h, "h " + (NatToString(r) + "m")) == Some(h * MinutesPerHour + r)
  {
    var minutesPart := NatToString(r) + "m";
    var tail := "h " + minutesPart;
    assert |tail| > 2;
    assert tail != "m" && tail != "h";
    assert tail[..2] == "h " && tail[2..] == minutesPart;
    MinutesPartRendered(h, r);
  }

  /** The text printed for hours and a non-zero remainder. */
  lemma HoursMinutesText(m: int)
    requires m >= MinutesPerHour && m % MinutesPerHour != 0
    ensures FormatDuration(m) ==
      NatToString(m / MinutesPerHour) + ("h " + (NatToString(m % MinutesPerHour) + "m"))
  {
  }

  /** Hours and shown minutes r, 1 <= r <= 59, with h*60 + r == m. */
  lemma FormatThenParseHoursMinutes(m: int)
    requires m >= MinutesPerHour && m % MinutesPerHour != 0
    ensures ParseDuration(FormatDuration(m)) == Some(m)
  {
    var h, r := m / MinutesPerHour, m % MinutesPerHour;
    var tail := "h " + (NatToString(r) + "m");
    var s := NatToString(h) + tail;
    HoursMinutesText(m);
    assert s[0] != '-';
    ReadRendered(h, tail);
    AfterHoursRendered(h, r);
  }

  /** Every formatted duration reads back as the minutes it was made from. */
  lemma FormatThenParse(m: int)
    ensures ParseDuration(FormatDuration(m)) == Some(m)
  {
    if m < MinutesPerHour {
      FormatThenParseBelowHour(m);
    } else if m % MinutesPerHour == 0 {
      FormatThenParseWholeHours(m);
    } else {
      FormatThenParseHoursMinutes(m);
    }
  }

  /** A negative duration is read only from a minus sign, its magnitude and "m". */
  lemma ParseThenFormatNegative(s: string, m: int)
    requires |s| > 0 && s[0] == '-'
    requires ParseDuration(s) == Some(m)
    ensures FormatDuration(m) == s
  {
    ReadSplits(s[1..]);
    assert s == [s[0]] + s[1..];
  }

  /** The three forms that start with a digit. */
  lemma ParseThenFormatUnsigned(s: string, m: int)
    requires ReadNumber(s).Some?
    requires ParseDuration(s) == Some(m)
    ensures FormatDuration(m) == s
  {
    ReadSplits(s);
    var h := ReadNumber(s).value.0;
    var t := ReadNumber(s).value.1;
    assert s == NatToString(h) + t;
    if t == "m" {
      assert m == h;
    } else if t == "h" {
      assert m == h * MinutesPerHour;
      assert m / MinutesPerHour == h && m % MinutesPerHour == 0;
    } else {
      ParseThenFormatHoursMinutes(h, t, m);
    }
  }

  /** The "Hh Mm" form: the remainder after the hours is "h ", the minutes and "m". */
  lemma ParseThenFormatHoursMinutes(h: nat, t: string, m: int)
    requires |t| >= 2 && t[..2] == "h " && ReadNumber(t[2..]).Some?
    requires ReadNumber(t[2..]).value.1 == "m"
    requires h >= 1
    requires 1 <= ReadNumber(t[2..]).value.0 < MinutesPerHour
    requires m == h * MinutesPerHour + ReadNumber(t[2..]).value.0
    ensures FormatDuration(m) == NatToString(h) + t
  {
    ReadSplits(t[2..]);
    var r := ReadNumber(t[2..]).value.0;
    assert m / MinutesPerHour == h && m % MinutesPerHour == r;
    assert t == t[..2] + t[2..];
  }

  /** Whatever ParseDuration accepts is exactly what FormatDuration prints for its value. */
  lemma ParseThenFormat(s: string, m: int)
    requires ParseDuration(s) == Some(m)
    ensures FormatDuration(m) == s
  {
    if |s| > 0 && s[0] == '-' {
      ParseThenFormatNegative(s, m);
    } else {
      ParseThenFormatUnsigned(s, m);
    }
  }

  /** Distinct durations are always shown differently. */
  lemma FormatDurationInjective(m1: int, m2: int)
    requires FormatDuration(m1) == FormatDuration(m2)
    ensures m1 == m2
  {
    FormatThenParse(m1);
    FormatThenParse(m2);
  }
}
