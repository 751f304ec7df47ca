/** Wall-clock arithmetic. A moment of the current day is the number of
    milliseconds since local midnight; `new Date(y, mo, d, hour, minute)` for
    today is the time of day converted to that scale. */
module Clock {
  import opened Decimal

  const MsPerSecond: nat := 1000
  const MsPerMinute: nat := 60 * MsPerSecond
  const MsPerHour: nat := 60 * MsPerMinute
  const MsPerDay: nat := 24 * MsPerHour

  /** A moment of today, as a millisecond offset from local midnight. */
  predicate IsMoment(now: int) {
    0 <= now < MsPerDay
  }

  /** An "HH:MM" schedule entry once split into hour and minute. */
  datatype TimeOfDay = TimeOfDay(hour: int, minute: int) {
    predicate Valid() {
      0 <= hour < 24 && 0 <= minute < 60
    }
  }

  /** The time of day, on today's date, as a moment: the seconds and
      milliseconds the Date constructor was not given are zero. The hour and
      minute can be read back from the moment. */
  function TodayAt(t: TimeOfDay): (ms: nat)
    requires t.Valid()
    ensures IsMoment(ms)
    ensures ms % MsPerMinute == 0
    ensures ms / MsPerHour == t.hour
    ensures ms % MsPerHour / MsPerMinute == t.minute
  {
    (t.hour * 60 + t.minute) * MsPerMinute
  }

  /** The same time of day on the following date. */
  function TomorrowAt(t: TimeOfDay): (ms: nat)
    requires t.Valid()
    ensures MsPerDay <= ms < 2 * MsPerDay
    ensures ms - MsPerDay == TodayAt(t)
  {
    MsPerDay + TodayAt(t)
  }

  /** Comparing two schedule entries on today's date compares their hour, then
      their minute; two entries fall at the same moment only when equal. */
  lemma TodayAtOrder(a: TimeOfDay, b: TimeOfDay)
    requires a.Valid() && b.Valid()
    ensures TodayAt(a) < TodayAt(b) <==> a.hour < b.hour || (a.hour == b.hour && a.minute < b.minute)
    ensures TodayAt(a) == TodayAt(b) <==> a == b
  {
    var ma, mb := a.hour * 60 + a.minute, b.hour * 60 + b.minute;
    assert TodayAt(a) == ma * MsPerMinute && TodayAt(b) == mb * MsPerMinute;
    assert ma < mb <==> a.hour < b.hour || (a.hour == b.hour && a.minute < b.minute);
    assert ma == mb <==> a == b;
  }

  /** An "HH:MM" text as the schedule service delivers it. */
  predicate IsClockText(s: string) {
    && |s| == 5
    && s[2] == ':'
    && AllDigits(s[..2]) && AllDigits(s[3..])
    && Value(s[..2]) < 24 && Value(s[3..]) < 60
  }

  /** `time.split(':')` followed by the Date constructor's number conversion. */
  function ParseClock(s: string): (t: TimeOfDay)
    requires IsClockText(s)
    ensures t.Valid()
  {
    TimeOfDay(Value(s[..2]), Value(s[3..]))
  }

  /** The "HH:MM" text of a time of day. */
  function FormatClock(t: TimeOfDay): (s: string)
    requires t.Valid()
    ensures |s| == 5 && s[2] == ':'
  {
    FieldOfNat(t.hour);
    FieldOfNat(t.minute);
    Field(t.hour) + ":" + Field(t.minute)
  }

  lemma SplitAtColon(a: string, b: string)
    requires |a| == 2
    ensures (a + ":" + b)[..2] == a && (a + ":" + b)[2] == ':' && (a + ":" + b)[3..] == b
  {
  }

  lemma JoinAtColon(s: string)
    requires |s| == 5 && s[2] == ':'
    ensures s == s[..2] + ":" + s[3..]
  {
  }

  /** Formatting and then parsing a time of day gives it back. */
  lemma ParseFormatClock(t: TimeOfDay)
    requires t.Valid()
    ensures IsClockText(FormatClock(t))
    ensures ParseClock(FormatClock(t)) == t
  {
    FieldOfNat(t.hour);
    FieldOfNat(t.minute);
    var hh, mm := Field(t.hour), Field(t.minute);
    SplitAtColon(hh, mm);
  }

  /** Parsing and then formatting a well-formed "HH:MM" text gives it back. */
  lemma FormatParseClock(s: string)
    requires IsClockText(s)
    ensures FormatClock(ParseClock(s)) == s
  {
    var hh, mm := s[..2], s[3..];
    TwoDigitField(hh);
    TwoDigitField(mm);
    JoinAtColon(s);
  }
}
