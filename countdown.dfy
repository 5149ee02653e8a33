/** The countdown arithmetic of the exam screen's one-second tick: which instant it counts to,
    when the exam is over, and how the remaining milliseconds are split and written out. */
module Countdown {
  import opened Text

  const MsPerSecond := 1000
  const MsPerMinute := 60 * MsPerSecond
  const MsPerHour := 60 * MsPerMinute

  const StartsLabel := "Time until exam starts:"
  const RemainingLabel := "Time remaining:"

  /** Milliseconds to the start while `now` is before it, to the end from the start instant on. */
  function Diff(now: int, start: int, end: int): int
  {
    if now < start then start - now else end - now
  }

  /** The tick flags the exam as over when nothing is left to count. */
  predicate IsOver(diff: int)
  {
    diff <= 0
  }

  /** The heading above the countdown: the same `now < start` test as Diff. */
  function Label(now: int, start: int): string
  {
    if now < start then StartsLabel else RemainingLabel
  }

  /** Math.floor(diff / 3600000): Dafny's division by a positive divisor already rounds down. */
  function Hours(diff: int): int
  {
    diff / MsPerHour
  }

  /** Math.floor((diff / 60000) % 60), where JavaScript's `%` keeps the sign of the dividend:
      for a negative diff the fractional remainder is rounded down, away from zero. */
  function Minutes(diff: int): int
  {
    if diff >= 0 then (diff / MsPerMinute) % 60
    else -(((-diff) % MsPerHour + MsPerMinute - 1) / MsPerMinute)
  }

  /** Math.floor((diff / 1000) % 60), with the same sign rule as Minutes. */
  function Seconds(diff: int): int
  {
    if diff >= 0 then (diff / MsPerSecond) % 60
    else -(((-diff) % MsPerMinute + MsPerSecond - 1) / MsPerSecond)
  }

  /** The countdown text: "HHhr MMm SSs" when there are whole hours left, else "MMm SSs". The tick
      compares the padded hour string with 0; HourTestAsWritten shows that this is the same test. */
  function Format(diff: int): string
  {
    var hours := Pad2(IntToString(Hours(diff)));
    var minutes := Pad2(IntToString(Minutes(diff)));
    var seconds := Pad2(IntToString(Seconds(diff)));
    if Hours(diff) > 0 then hours + "hr " + minutes + "m " + seconds + "s"
    else minutes + "m " + seconds + "s"
  }

  /** Every countdown text has at least a minute and a second field, so it never hides the panel by being empty. */
  lemma {:induction false} FormatNonEmpty(diff: int)
    ensures |Format(diff)| >= 7
  {
    var minutes := Pad2(IntToString(Minutes(diff)));
    var seconds := Pad2(IntToString(Seconds(diff)));
    assert |minutes| >= 2 && |seconds| >= 2;
    assert |minutes + "m " + seconds + "s"| >= 7;
  }

  /** Whole hours, minutes and seconds as read off a countdown text. */
  datatype Clock = Clock(hours: int, minutes: int, seconds: int)

  /** The number in front of `unit` in a field such as "05m": at least two digits, as the padding writes them. */
  function UnitValue(field: string, unit: string): Option<int>
  {
    var n := |field| - |unit|;
    if n >= 2 && field[n..] == unit && IsNumeral(field[..n]) then Some(DigitsValue(field[..n]) as int) else None
  }

  /** Reads a countdown text back: three space-separated fields with an hour part, or two without. */
  function ParseCountdown(text: string): Option<Clock>
  {
    var fields := Split(text, ' ');
    if |fields| == 3 then
      match (UnitValue(fields[0], "hr"), UnitValue(fields[1], "m"), UnitValue(fields[2], "s"))
      case (Some(h), Some(m), Some(s)) => Some(Clock(h, m, s))
      case _ => None
    else if |fields| == 2 then
      match (UnitValue(fields[0], "m"), UnitValue(fields[1], "s"))
      case (Some(m), Some(s)) => Some(Clock(0, m, s))
      case _ => None
    else None
  }

  /** The tick counts to the start before it and to the end from it on; the boundary belongs to the end. */
  lemma DiffTarget(now: int, start: int, end: int)
    ensures now < start ==> Diff(now, start, end) == start - now > 0
    ensures now >= start ==> Diff(now, start, end) == end - now
    ensures Label(now, start) == StartsLabel <==> now < start
  {
  }

  /** Never over before the start; with start <= end, over exactly from the end instant on. */
  lemma OverExactlyFromEnd(now: int, start: int, end: int)
    ensures now < start ==> !IsOver(Diff(now, start, end))
    ensures start <= end ==> (IsOver(Diff(now, start, end)) <==> now >= end)
  {
  }

  /** q / 60 / 60 == q / 3600 for the whole seconds q, and the minute count taken from milliseconds agrees. */
  lemma {:induction false} SecondsScale(diff: int)
    requires diff >= 0
    ensures diff / MsPerMinute == (diff / MsPerSecond) / 60
    ensures diff / MsPerHour == ((diff / MsPerSecond) / 60) / 60
  {
    var q := diff / MsPerSecond;
    var r := diff % MsPerSecond;
    var m := q / 60;
    var h := m / 60;
    assert diff == MsPerMinute * m + (MsPerSecond * (q % 60) + r);
    assert diff == MsPerHour * h + (MsPerMinute * (m % 60) + MsPerSecond * (q % 60) + r);
  }

  /** For a non-negative difference the components are whole hours, minutes 0..59 and seconds 0..59
      that add back up to the whole seconds remaining. */
  lemma {:induction false} Decomposition(diff: int)
    requires diff >= 0
    ensures Hours(diff) >= 0 && 0 <= Minutes(diff) < 60 && 0 <= Seconds(diff) < 60
    ensures Hours(diff) * 3600 + Minutes(diff) * 60 + Seconds(diff) == diff / MsPerSecond
  {
    SecondsScale(diff);
  }

  /** For a negative difference (only reached once the exam is flagged over) the hours are negative
      and the minutes and seconds lie in -60..0. */
  lemma NegativeComponents(diff: int)
    requires diff < 0
    ensures Hours(diff) < 0
    ensures -60 <= Minutes(diff) <= 0 && -60 <= Seconds(diff) <= 0
  {
  }

  /** The tick's hour test compares the zero-padded hour string with 0; JavaScript turns the string
      back into its number, so the test holds exactly when the whole hours are positive. */
  lemma HourTestAsWritten(diff: int)
    ensures IsPositiveNumber(Pad2(IntToString(Hours(diff)))) <==> Hours(diff) > 0
  {
    PaddedIntToNumber(Hours(diff));
  }

  /** Once nothing is left to count, the countdown text has no hour part. */
  lemma {:induction false} NoHourPartWhenOver(diff: int)
    requires IsOver(diff)
    ensures Format(diff) == Pad2(IntToString(Minutes(diff))) + "m " + Pad2(IntToString(Seconds(diff))) + "s"
  {
    var q, r := diff / MsPerHour, diff % MsPerHour;
    assert diff == MsPerHour * q + r && 0 <= r < MsPerHour;
    assert q <= 0;
  }

  lemma {:induction false} PaddedDigits(n: nat)
    ensures IsNumeral(Pad2(IntToString(n))) && DigitsValue(Pad2(IntToString(n))) == n
  {
    PaddedNumeral(n, 2);
  }

  lemma {:induction false} UnitValueOf(p: string, unit: string)
    requires IsNumeral(p) && |p| >= 2 && |unit| > 0
    ensures UnitValue(p + unit, unit) == Some(DigitsValue(p) as int)
  {
    var f := p + unit;
    assert f[|p|..] == unit && f[..|p|] == p;
  }

  lemma {:induction false} HoursTextAsJoin(hs: string, ms: string, ss: string)
    ensures hs + "hr " + ms + "m " + ss + "s" == Join([hs + "hr", ms + "m", ss + "s"], ' ')
  {
    var parts := [hs + "hr", ms + "m", ss + "s"];
    var tail := [ms + "m", ss + "s"];
    assert parts[1..] == tail && tail[1..] == [ss + "s"];
    assert Join(tail, ' ') == ms + "m" + [' '] + (ss + "s");
    assert Join(parts, ' ') == hs + "hr" + [' '] + Join(tail, ' ');
    assert "hr " == "hr" + [' '] && "m " == "m" + [' '];
    calc {
      hs + "hr " + ms + "m " + ss + "s";
      hs + ("hr" + [' ']) + ms + ("m" + [' ']) + ss + "s";
      (hs + "hr") + [' '] + ((ms + "m") + [' '] + (ss + "s"));
    }
  }

  lemma {:induction false} MinutesTextAsJoin(ms: string, ss: string)
    ensures ms + "m " + ss + "s" == Join([ms + "m", ss + "s"], ' ')
  {
    assert "m " == "m" + [' '];
    calc {
      ms + "m " + ss + "s";
      ms + ("m" + [' ']) + ss + "s";
      (ms + "m") + [' '] + (ss + "s");
    }
  }

  /** A text with an hour field made of three numerals of at least two digits reads back as those three numbers. */
  lemma {:induction false} ParseWithHours(hs: string, ms: string, ss: string)
    requires IsNumeral(hs) && IsNumeral(ms) && IsNumeral(ss)
    requires |hs| >= 2 && |ms| >= 2 && |ss| >= 2
    ensures var text := hs + "hr " + ms + "m " + ss + "s";
      |Split(text, ' ')| == 3 &&
      ParseCountdown(text) == Some(Clock(DigitsValue(hs), DigitsValue(ms), DigitsValue(ss)))
  {
    SeparatorNotInDigits(hs, ' ');
    SeparatorNotInDigits(ms, ' ');
    SeparatorNotInDigits(ss, ' ');
    UnitValueOf(hs, "hr");
    UnitValueOf(ms, "m");
    UnitValueOf(ss, "s");
    HoursTextAsJoin(hs, ms, ss);
    SplitJoin([hs + "hr", ms + "m", ss + "s"], ' ');
  }

  /** A text without an hour field, its numerals of at least two digits, reads back with zero hours. */
  lemma {:induction false} ParseWithoutHours(ms: string, ss: string)
    requires IsNumeral(ms) && IsNumeral(ss)
    requires |ms| >= 2 && |ss| >= 2
    ensures var text := ms + "m " + ss + "s";
      |Split(text, ' ')| == 2 && ParseCountdown(text) == Some(Clock(0, DigitsValue(ms), DigitsValue(ss)))
  {
    SeparatorNotInDigits(ms, ' ');
    SeparatorNotInDigits(ss, ' ');
    UnitValueOf(ms, "m");
    UnitValueOf(ss, "s");
    MinutesTextAsJoin(ms, ss);
    SplitJoin([ms + "m", ss + "s"], ' ');
  }

  /** The countdown text of a non-negative difference reads back as its hours, minutes and seconds, each
      field padded to at least two digits; the hour field is there exactly when the hours are positive,
      and it is never truncated. */
  lemma {:induction false} FormatRoundTrip(diff: int)
    requires diff >= 0
    ensures ParseCountdown(Format(diff)) == Some(Clock(Hours(diff), Minutes(diff), Seconds(diff)))
    ensures |Split(Format(diff), ' ')| == (if Hours(diff) > 0 then 3 else 2)
  {
    Decomposition(diff);
    PaddedDigits(Hours(diff));
    PaddedDigits(Minutes(diff));
    PaddedDigits(Seconds(diff));
    var hs, ms, ss := Pad2(IntToString(Hours(diff))), Pad2(IntToString(Minutes(diff))), Pad2(IntToString(Seconds(diff)));
    if Hours(diff) > 0 {
      ParseWithHours(hs, ms, ss);
    } else {
      ParseWithoutHours(ms, ss);
    }
  }

  /** Two non-negative differences with the same countdown text have the same whole seconds left. */
  lemma {:induction false} FormatDeterminesSeconds(d1: int, d2: int)
    requires d1 >= 0 && d2 >= 0
    requires Format(d1) == Format(d2)
    ensures d1 / MsPerSecond == d2 / MsPerSecond
  {
    FormatRoundTrip(d1);
    FormatRoundTrip(d2);
    Decomposition(d1);
    Decomposition(d2);
  }

  lemma PaddedSmall(n: nat)
    requires n < 10
    ensures Pad2(IntToString(n)) == ['0', DigitChar(n)]
  {
    var s := [DigitChar(n)];
    assert IntToString(n) == s;
    assert PadStart(s, 1, '0') == s;
  }

  /** The worked example of one hour, one minute and one second. */
  lemma FormatExampleWithHours()
    ensures Format(3661000) == "01hr 01m 01s"
  {
    assert Hours(3661000) == 1 && Minutes(3661000) == 1 && Seconds(3661000) == 1;
    PaddedSmall(1);
  }

  /** The worked example of two minutes and five seconds: no hour part. */
  lemma FormatExampleWithoutHours()
    ensures Format(125000) == "02m 05s"
  {
    assert Hours(125000) == 0 && Minutes(125000) == 2 && Seconds(125000) == 5;
    PaddedSmall(0);
    PaddedSmall(2);
    PaddedSmall(5);
  }

  /** The last second before an instant, with neither hours nor minutes left. */
  lemma FormatExampleOneSecond()
    ensures Format(MsPerSecond) == "00m 01s"
  {
    assert Hours(MsPerSecond) == 0 && Minutes(MsPerSecond) == 0 && Seconds(MsPerSecond) == 1;
    PaddedSmall(0);
    PaddedSmall(1);
  }
}
