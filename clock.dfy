/** `datetime` values with an optional fixed UTC offset, the JST conversion
    `utc_to_jst` and the threshold `get_24_hours_ago`. */
module Clock {
  import opened Wrappers
  import opened Calendar
  import opened Display

  /** `timedelta(hours=24)`. */
  const Day: int := 24 * MicrosPerHour
  /** The offset of `timezone(timedelta(hours=9))`. */
  const JstOffset: int := 9 * MicrosPerHour

  /** A `datetime`: its wall-clock fields (as a value) and its UTC offset,
      None for a naive datetime. */
  datatype DateTime = DateTime(wall: int, offset: Option<int>)

  /** What Python guarantees of every `datetime` object. */
  predicate Valid(dt: DateTime) {
    InRange(dt.wall) && (dt.offset.Some? ==> -Day < dt.offset.value < Day)
  }

  /** The UTC instant a datetime stands for, a naive one read as UTC. */
  function UtcInstant(dt: DateTime): int {
    dt.wall - dt.offset.GetOr(0)
  }

  /** `utc_to_jst`: tag a naive datetime as UTC, then `astimezone(JST)`.
      Moving the wall clock outside years 1..9999 raises OverflowError (None). */
  function UtcToJst(dt: DateTime): (r: Option<DateTime>)
    requires Valid(dt)
    ensures r.Some? <==> InRange(UtcInstant(dt)) && InRange(UtcInstant(dt) + JstOffset)
    ensures r.Some? ==> Valid(r.value) && r.value.offset == Some(JstOffset)
    ensures r.Some? ==> UtcInstant(r.value) == UtcInstant(dt)
    ensures r.Some? ==> r.value.wall == UtcInstant(dt) + 9 * MicrosPerHour
  {
    var asUtc := if dt.offset.None? then dt.(offset := Some(0)) else dt;
    var utc := asUtc.wall - asUtc.offset.value;
    if !InRange(utc) || !InRange(utc + JstOffset) then None
    else Some(DateTime(utc + JstOffset, Some(JstOffset)))
  }

  /** The JST shift moves whole seconds to whole seconds. */
  lemma ShiftKeepsWholeSeconds(utc: int)
    requires utc % MicrosPerSecond == 0
    ensures (utc + JstOffset) % MicrosPerSecond == 0
  {
    assert utc + JstOffset == (utc / MicrosPerSecond + 32400) * MicrosPerSecond;
  }

  /** A naive datetime converts exactly as the same wall clock marked UTC. */
  lemma NaiveIsUtc(wall: int)
    requires InRange(wall)
    ensures UtcToJst(DateTime(wall, None)) == UtcToJst(DateTime(wall, Some(0)))
  {
  }

  /** `dt.strftime('%Y-%m-%d %H:%M:%S JST')`: the wall clock in the display
      format, which reads back as the same fields down to the second. */
  function Format(dt: DateTime): (s: string)
    requires Valid(dt)
    ensures |s| == 23
  {
    Strftime(ToCivil(dt.wall))
  }

  /** The display reads back as the datetime's fields, down to the second. */
  lemma FormatReadsBack(dt: DateTime, shown: string)
    requires Valid(dt) && shown == Format(dt)
    ensures ParseDisplay(shown) == Some(ToCivil(dt.wall).(micro := 0))
  {
    StrftimeRoundTrip(ToCivil(dt.wall));
  }

  /** A whole-second wall clock, displayed and read back, is itself. */
  lemma WholeSecondsReadBack(dt: DateTime, shown: string)
    requires Valid(dt) && dt.wall % MicrosPerSecond == 0 && shown == Format(dt)
    ensures ParseDisplay(shown).Some? && ValidCivil(ParseDisplay(shown).value)
    ensures FromCivil(ParseDisplay(shown).value) == dt.wall
  {
    FormatReadsBack(dt, shown);
    ToCivilInverse(dt.wall);
    WholeSecondsFields(dt.wall);
    assert ToCivil(dt.wall).(micro := 0) == ToCivil(dt.wall);
  }

  /** The JST display of a whole-second UTC instant reads back as that
      instant moved forward by nine hours. */
  lemma JstDisplayReadsBack(utc: int, shown: string)
    requires InRange(utc) && InRange(utc + JstOffset) && utc % MicrosPerSecond == 0
    requires shown == Format(DateTime(utc + JstOffset, Some(JstOffset)))
    ensures ParseDisplay(shown).Some? && ValidCivil(ParseDisplay(shown).value)
    ensures FromCivil(ParseDisplay(shown).value) == utc + 9 * MicrosPerHour
  {
    ShiftKeepsWholeSeconds(utc);
    WholeSecondsReadBack(DateTime(utc + JstOffset, Some(JstOffset)), shown);
  }

  /** `get_24_hours_ago`: the naive `now` minus 24 hours; OverflowError (None)
      when that falls before year 1. */
  function Get24HoursAgo(now: int): (r: Option<DateTime>)
    requires InRange(now)
    ensures r.Some? <==> now >= Day
    ensures r.Some? ==> Valid(r.value) && r.value.offset.None?
    ensures r.Some? ==> now - r.value.wall == 86_400 * MicrosPerSecond
  {
    if InRange(now - Day) then Some(DateTime(now - Day, None)) else None
  }

  /** No calendar adjustment: 24 hours before `now` (the threshold, by
      Get24HoursAgo) is the same time of day on the previous calendar day,
      across month and year ends and leap days alike. */
  lemma ThresholdIsPreviousDay(now: int)
    requires InRange(now) && now >= Day
    ensures var a, b := ToCivil(now), ToCivil(now - Day);
      && DayNumber(b) == DayNumber(a) - 1
      && b.hour == a.hour && b.minute == a.minute && b.second == a.second && b.micro == a.micro
  {
    SplitDay(now - Day, now / MicrosPerDay - 1, now % MicrosPerDay);
    CivilAtDenotes(now / MicrosPerDay, now % MicrosPerDay);
    CivilAtDenotes(now / MicrosPerDay - 1, now % MicrosPerDay);
  }
}
