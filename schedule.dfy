/** The submit handler's parsing: a `YYYY-MM-DD` date and two `HH:MM` times from the setup form
    become the exam's start and end instants, both on that date. */
module Schedule {
  import opened Text
  import opened Countdown

  /** The calendar fields handed to the Date constructor, the month already made zero-based. */
  datatype CalendarDate = CalendarDate(year: int, monthIndex: int, day: int)

  datatype TimeOfDay = TimeOfDay(hours: int, minutes: int)

  /** The exam's start and end instants in milliseconds. */
  datatype Interval = Interval(start: int, end: int)

  /** The first three '-'-separated fields as year, month and day, the month made zero-based; a missing or
      non-numeric field gives None. */
  function ParseDate(date: string): Option<CalendarDate>
  {
    var parts := Split(date, '-');
    if |parts| >= 3 && IsNumeral(parts[0]) && IsNumeral(parts[1]) && IsNumeral(parts[2]) then
      Some(CalendarDate(DigitsValue(parts[0]), DigitsValue(parts[1]) - 1, DigitsValue(parts[2])))
    else None
  }

  /** The first two ':'-separated fields as hours and minutes; a missing or non-numeric field gives None. */
  function ParseTime(time: string): Option<TimeOfDay>
  {
    var parts := Split(time, ':');
    if |parts| >= 2 && IsNumeral(parts[0]) && IsNumeral(parts[1]) then
      Some(TimeOfDay(DigitsValue(parts[0]), DigitsValue(parts[1])))
    else None
  }

  function MinuteOfDay(t: TimeOfDay): int
  {
    t.hours * 60 + t.minutes
  }

  /** The Date constructor's instant for a time of day on a date whose local midnight is `midnight`,
      without daylight-saving shifts: out-of-range hours and minutes roll over as the Date constructor does. */
  function LocalInstant(midnight: int, t: TimeOfDay): int
  {
    midnight + MinuteOfDay(t) * MsPerMinute
  }

  /** Both instants of the submit handler, built on the same calendar date; `localMidnight` stands for
      the time-zone lookup of the Date constructor. */
  function ParseSchedule(date: string, startTime: string, endTime: string, localMidnight: CalendarDate -> int): Option<Interval>
  {
    match (ParseDate(date), ParseTime(startTime), ParseTime(endTime))
    case (Some(d), Some(s), Some(e)) => Some(Interval(LocalInstant(localMidnight(d), s), LocalInstant(localMidnight(d), e)))
    case _ => None
  }

  /** A date written as three numerals joined by '-' (the `YYYY-MM-DD` value of a date input) parses back
      to those numbers, with the month counted from zero. */
  lemma {:induction false} DateRoundTrip(y: string, m: string, d: string)
    requires IsNumeral(y) && IsNumeral(m) && IsNumeral(d)
    ensures ParseDate(Join([y, m, d], '-')) == Some(CalendarDate(DigitsValue(y), DigitsValue(m) - 1, DigitsValue(d)))
  {
    SeparatorNotInDigits(y, '-');
    SeparatorNotInDigits(m, '-');
    SeparatorNotInDigits(d, '-');
    SplitJoin([y, m, d], '-');
  }

  /** A time written as two numerals joined by ':' (the `HH:MM` value of a time input) parses back to them. */
  lemma {:induction false} TimeRoundTrip(h: string, m: string)
    requires IsNumeral(h) && IsNumeral(m)
    ensures ParseTime(Join([h, m], ':')) == Some(TimeOfDay(DigitsValue(h), DigitsValue(m)))
  {
    SeparatorNotInDigits(h, ':');
    SeparatorNotInDigits(m, ':');
    SplitJoin([h, m], ':');
  }

  /** A parsed schedule exists exactly when all three fields parse; its instants lie on the same date,
      each its time of day after that date's midnight, so they differ by the minutes between the two times. */
  lemma SameDay(date: string, startTime: string, endTime: string, localMidnight: CalendarDate -> int)
    ensures ParseSchedule(date, startTime, endTime, localMidnight).Some? <==>
      ParseDate(date).Some? && ParseTime(startTime).Some? && ParseTime(endTime).Some?
    ensures ParseSchedule(date, startTime, endTime, localMidnight).Some? ==>
      var iv := ParseSchedule(date, startTime, endTime, localMidnight).value;
      var midnight := localMidnight(ParseDate(date).value);
      var s, e := ParseTime(startTime).value, ParseTime(endTime).value;
      iv.start - midnight == MinuteOfDay(s) * MsPerMinute &&
      iv.end - midnight == MinuteOfDay(e) * MsPerMinute &&
      iv.end - iv.start == (MinuteOfDay(e) - MinuteOfDay(s)) * MsPerMinute
  {
  }

  /** The end instant is after the start instant exactly when the end time is later in the day. */
  lemma EndAfterStart(date: string, startTime: string, endTime: string, localMidnight: CalendarDate -> int)
    requires ParseSchedule(date, startTime, endTime, localMidnight).Some?
    ensures var iv := ParseSchedule(date, startTime, endTime, localMidnight).value;
      iv.start < iv.end <==> MinuteOfDay(ParseTime(startTime).value) < MinuteOfDay(ParseTime(endTime).value)
  {
    SameDay(date, startTime, endTime, localMidnight);
    var iv := ParseSchedule(date, startTime, endTime, localMidnight).value;
    var gap := MinuteOfDay(ParseTime(endTime).value) - MinuteOfDay(ParseTime(startTime).value);
    assert iv.end - iv.start == gap * MsPerMinute;
    assert gap > 0 <==> gap * MsPerMinute > 0;
  }

  /** The setup form's values parse to the instants of their date and times, both on that date. */
  lemma {:induction false} FormValuesSchedule(y: string, mo: string, d: string, sh: string, sm: string, eh: string, em: string,
                                              localMidnight: CalendarDate -> int)
    requires IsNumeral(y) && IsNumeral(mo) && IsNumeral(d)
    requires IsNumeral(sh) && IsNumeral(sm) && IsNumeral(eh) && IsNumeral(em)
    ensures var midnight := localMidnight(CalendarDate(DigitsValue(y), DigitsValue(mo) - 1, DigitsValue(d)));
      ParseSchedule(Join([y, mo, d], '-'), Join([sh, sm], ':'), Join([eh, em], ':'), localMidnight)
        == Some(Interval(LocalInstant(midnight, TimeOfDay(DigitsValue(sh), DigitsValue(sm))),
                         LocalInstant(midnight, TimeOfDay(DigitsValue(eh), DigitsValue(em)))))
  {
    DateRoundTrip(y, mo, d);
    TimeRoundTrip(sh, sm);
    TimeRoundTrip(eh, em);
  }
}
