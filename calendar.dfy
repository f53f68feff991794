/** The proleptic Gregorian calendar over the range of Python's `datetime`:
    years 1 to 9999 at microsecond resolution. A wall-clock value is an
    integer count of microseconds since 0001-01-01 00:00:00; `Civil` is the
    same value broken down into fields, as `datetime` stores it. */
module Calendar {
  import opened Wrappers

  const MicrosPerSecond: int := 1_000_000
  const MicrosPerMinute: int := 60_000_000
  const MicrosPerHour: int := 3_600_000_000
  const MicrosPerDay: int := 86_400_000_000
  const MaxYear: int := 9999
  /** Days from 0001-01-01 up to 10000-01-01. */
  const DaysInRange: int := 3_652_059
  /** The first value after 9999-12-31 23:59:59.999999. */
  const EndOfRange: int := DaysInRange * MicrosPerDay

  /** The values a `datetime` can hold; anything else raises OverflowError. */
  predicate InRange(t: int) {
    0 <= t < EndOfRange
  }

  predicate IsLeap(y: int) {
    y % 4 == 0 && (y % 100 != 0 || y % 400 == 0)
  }

  function DaysInYear(y: int): int {
    if IsLeap(y) then 366 else 365
  }

  function DaysInMonth(y: int, m: int): int
    requires 1 <= m <= 12
  {
    if m == 2 then (if IsLeap(y) then 29 else 28)
    else if m == 4 || m == 6 || m == 9 || m == 11 then 30
    else 31
  }

  /** Days in the months of year `y` before month `m`. */
  function DaysBeforeMonth(y: int, m: int): int
    requires 1 <= m <= 12
  {
    [0, 31, 59, 90, 120, 151, 181, 212, 243, 273, 304, 334][m - 1]
      + (if m > 2 && IsLeap(y) then 1 else 0)
  }

  /** Days from 0001-01-01 up to January 1 of year `y`, in closed form. */
  function DaysBeforeYear(y: int): int
    requires y >= 1
  {
    var p := y - 1;
    p * 365 + p / 4 - p / 100 + p / 400
  }

  lemma DivStep(a: int)
    requires a >= 0
    ensures (a + 1) / 4 == a / 4 + (if (a + 1) % 4 == 0 then 1 else 0)
    ensures (a + 1) / 100 == a / 100 + (if (a + 1) % 100 == 0 then 1 else 0)
    ensures (a + 1) / 400 == a / 400 + (if (a + 1) % 400 == 0 then 1 else 0)
  {
  }

  /** The closed form adds exactly the length of each year. */
  lemma DaysBeforeYearStep(y: int)
    requires y >= 1
    ensures DaysBeforeYear(y + 1) == DaysBeforeYear(y) + DaysInYear(y)
  {
    DivStep(y - 1);
  }

  lemma {:induction false} DaysBeforeYearIncreasing(a: int, b: int)
    requires 1 <= a <= b
    ensures DaysBeforeYear(a) + 365 * (b - a) <= DaysBeforeYear(b)
    decreases b - a
  {
    if a < b {
      DaysBeforeYearStep(a);
      DaysBeforeYearIncreasing(a + 1, b);
    }
  }

  lemma MonthStep(y: int, m: int)
    requires 1 <= m <= 12
    ensures m < 12 ==> DaysBeforeMonth(y, m + 1) == DaysBeforeMonth(y, m) + DaysInMonth(y, m)
    ensures m == 12 ==> DaysBeforeMonth(y, m) + DaysInMonth(y, m) == DaysInYear(y)
  {
  }

  /** The year holding day `n` counted from January 1 of year `y`, and that
      day's zero-based position within its year. */
  function YearOf(n: int, y: int): (r: (int, int))
    requires n >= 0 && y >= 1
    ensures r.0 >= y && 0 <= r.1 < DaysInYear(r.0)
    ensures DaysBeforeYear(r.0) + r.1 == DaysBeforeYear(y) + n
    decreases n
  {
    if n < DaysInYear(y) then (y, n)
    else
      DaysBeforeYearStep(y);
      YearOf(n - DaysInYear(y), y + 1)
  }

  /** The month holding day `d` (zero-based) counted from the first day of
      month `m` of year `y`, and the day of the month (one-based). */
  function MonthOf(y: int, d: int, m: int): (r: (int, int))
    requires 1 <= m <= 12 && 0 <= d && DaysBeforeMonth(y, m) + d < DaysInYear(y)
    ensures m <= r.0 <= 12 && 1 <= r.1 <= DaysInMonth(y, r.0)
    ensures DaysBeforeMonth(y, r.0) + r.1 - 1 == DaysBeforeMonth(y, m) + d
    decreases 12 - m
  {
    MonthStep(y, m);
    if d < DaysInMonth(y, m) then (m, d + 1)
    else MonthOf(y, d - DaysInMonth(y, m), m + 1)
  }

  /** The broken-down fields of a `datetime` (tzinfo aside). */
  datatype Civil = Civil(year: int, month: int, day: int,
                         hour: int, minute: int, second: int, micro: int)

  /** The field ranges that the `datetime` constructor accepts; outside them
      it raises ValueError. */
  predicate ValidCivil(c: Civil) {
    && 1 <= c.year <= MaxYear
    && 1 <= c.month <= 12
    && 1 <= c.day <= DaysInMonth(c.year, c.month)
    && 0 <= c.hour < 24
    && 0 <= c.minute < 60
    && 0 <= c.second < 60
    && 0 <= c.micro < MicrosPerSecond
  }

  /** Zero-based day number of a date, 0001-01-01 being day 0. */
  function DayNumber(c: Civil): int
    requires ValidCivil(c)
  {
    DaysBeforeYear(c.year) + DaysBeforeMonth(c.year, c.month) + c.day - 1
  }

  function TimeOfDay(c: Civil): int {
    c.hour * MicrosPerHour + c.minute * MicrosPerMinute + c.second * MicrosPerSecond + c.micro
  }

  /** A valid day of a month lies within its year. */
  lemma DayOfYearBound(y: int, m: int, d: int)
    requires 1 <= m <= 12 && 1 <= d <= DaysInMonth(y, m)
    ensures DaysBeforeMonth(y, m) + d - 1 < DaysInYear(y)
  {
    if m == 2 {
    } else if m == 4 || m == 6 || m == 9 || m == 11 {
    }
  }

  /** Valid fields name a day within the range. */
  lemma DayNumberBound(c: Civil)
    requires ValidCivil(c)
    ensures 0 <= DayNumber(c) < DaysInRange
  {
    DaysBeforeYearStep(c.year);
    DaysBeforeYearIncreasing(c.year + 1, MaxYear + 1);
    DayOfYearBound(c.year, c.month, c.day);
  }

  /** The wall-clock value of valid fields. */
  function FromCivil(c: Civil): (t: int)
    requires ValidCivil(c)
    ensures InRange(t)
  {
    DayNumberBound(c);
    TimeOfDayBound(c);
    DayNumber(c) * MicrosPerDay + TimeOfDay(c)
  }

  /** The date of day number `days`, 0001-01-01 being day 0. */
  function DateOf(days: int): (r: (int, int, int))
    requires 0 <= days < DaysInRange
    ensures ValidCivil(Civil(r.0, r.1, r.2, 0, 0, 0, 0))
    ensures DayNumber(Civil(r.0, r.1, r.2, 0, 0, 0, 0)) == days
  {
    var (y, dayOfYear) := YearOf(days, 1);
    assert y <= MaxYear by {
      if y > MaxYear {
        DaysBeforeYearIncreasing(MaxYear + 1, y);
      }
    }
    var (m, d) := MonthOf(y, dayOfYear, 1);
    (y, m, d)
  }

  /** The fields of day `days` at time of day `rest`. */
  function CivilAt(days: int, rest: int): (c: Civil)
    requires 0 <= days < DaysInRange && 0 <= rest < MicrosPerDay
    ensures ValidCivil(c)
  {
    var (y, m, d) := DateOf(days);
    ClockSplit(rest);
    Civil(y, m, d, rest / MicrosPerHour, rest % MicrosPerHour / MicrosPerMinute,
          rest % MicrosPerMinute / MicrosPerSecond, rest % MicrosPerSecond)
  }

  /** The fields of a wall-clock value: the inverse of FromCivil. */
  function ToCivil(t: int): (c: Civil)
    requires InRange(t)
    ensures ValidCivil(c)
  {
    CivilAt(t / MicrosPerDay, t % MicrosPerDay)
  }

  /** Breaking a time of day into hours, minutes, seconds and microseconds
      and adding them up again gives the time of day back. */
  lemma ClockSplit(rest: int)
    requires 0 <= rest < MicrosPerDay
    ensures 0 <= rest / MicrosPerHour < 24
    ensures 0 <= rest % MicrosPerHour / MicrosPerMinute < 60
    ensures 0 <= rest % MicrosPerMinute / MicrosPerSecond < 60
    ensures rest / MicrosPerHour * MicrosPerHour + rest % MicrosPerHour / MicrosPerMinute * MicrosPerMinute
            + rest % MicrosPerMinute / MicrosPerSecond * MicrosPerSecond + rest % MicrosPerSecond == rest
  {
    var h, r1 := rest / MicrosPerHour, rest % MicrosPerHour;
    assert rest == h * MicrosPerHour + r1;
    var m, r2 := r1 / MicrosPerMinute, r1 % MicrosPerMinute;
    assert r1 == m * MicrosPerMinute + r2;
    assert rest % MicrosPerMinute == r2;
  }

  /** Fields in range are recovered from the time of day they add up to. */
  lemma ClockJoin(h: int, m: int, s: int, us: int)
    requires 0 <= h < 24 && 0 <= m < 60 && 0 <= s < 60 && 0 <= us < MicrosPerSecond
    ensures var rest := h * MicrosPerHour + m * MicrosPerMinute + s * MicrosPerSecond + us;
      && rest / MicrosPerHour == h
      && rest % MicrosPerHour / MicrosPerMinute == m
      && rest % MicrosPerMinute / MicrosPerSecond == s
      && rest % MicrosPerSecond == us
  {
    var r2 := s * MicrosPerSecond + us;
    assert r2 / MicrosPerSecond == s && r2 % MicrosPerSecond == us;
    var r1 := m * MicrosPerMinute + r2;
    assert r1 / MicrosPerMinute == m && r1 % MicrosPerMinute == r2;
    var rest := h * MicrosPerHour + r1;
    assert rest / MicrosPerHour == h && rest % MicrosPerHour == r1;
    assert rest % MicrosPerMinute == r2;
    assert rest % MicrosPerSecond == us;
  }

  /** The fields of day `days` at time `rest` name that day and time. */
  lemma CivilAtDenotes(days: int, rest: int)
    requires 0 <= days < DaysInRange && 0 <= rest < MicrosPerDay
    ensures DayNumber(CivilAt(days, rest)) == days && TimeOfDay(CivilAt(days, rest)) == rest
  {
    ClockSplit(rest);
    var (y, m, d) := DateOf(days);
    assert DayNumber(CivilAt(days, rest)) == DayNumber(Civil(y, m, d, 0, 0, 0, 0));
  }

  /** Every wall-clock value in range has valid fields, and they denote it. */
  lemma ToCivilInverse(t: int)
    requires InRange(t)
    ensures ValidCivil(ToCivil(t)) && FromCivil(ToCivil(t)) == t
  {
    CivilAtDenotes(t / MicrosPerDay, t % MicrosPerDay);
  }

  /** YearOf finds the year of any day that lies in it. */
  lemma {:induction false} YearOfAt(y: int, year: int, k: int)
    requires 1 <= y <= year && 0 <= k < DaysInYear(year)
    ensures YearOf(DaysBeforeYear(year) - DaysBeforeYear(y) + k, y) == (year, k)
    decreases year - y
  {
    if y < year {
      DaysBeforeYearStep(y);
      DaysBeforeYearIncreasing(y + 1, year);
      YearOfAt(y + 1, year, k);
    }
  }

  /** MonthOf finds the month of any day that lies in it. */
  lemma {:induction false} MonthOfAt(y: int, m: int, month: int, day: int)
    requires 1 <= m <= month <= 12 && 1 <= day <= DaysInMonth(y, month)
    requires DaysBeforeMonth(y, month) + day - 1 < DaysInYear(y)
    ensures MonthOf(y, DaysBeforeMonth(y, month) - DaysBeforeMonth(y, m) + day - 1, m) == (month, day)
    decreases month - m
  {
    if m < month {
      MonthStep(y, m);
      MonthOfAt(y, m + 1, month, day);
    }
  }

  /** Splitting a value into whole days and the rest of the day. */
  lemma SplitDay(t: int, n: int, rest: int)
    requires 0 <= rest < MicrosPerDay && t == n * MicrosPerDay + rest
    ensures t / MicrosPerDay == n && t % MicrosPerDay == rest
  {
  }

  lemma TimeOfDayBound(c: Civil)
    requires ValidCivil(c)
    ensures 0 <= TimeOfDay(c) < MicrosPerDay
  {
  }

  /** DateOf finds the date of any valid fields' day number. */
  lemma DateOfInverse(c: Civil)
    requires ValidCivil(c)
    ensures DateOf(DayNumber(c)) == (c.year, c.month, c.day)
  {
    var k := DaysBeforeMonth(c.year, c.month) + c.day - 1;
    DayOfYearBound(c.year, c.month, c.day);
    YearOfAt(1, c.year, k);
    assert YearOf(DayNumber(c), 1) == (c.year, k);
    MonthOfAt(c.year, 1, c.month, c.day);
    assert MonthOf(c.year, k, 1) == (c.month, c.day);
  }

  /** Valid fields are recovered from their day number and time of day. */
  lemma CivilAtInverse(c: Civil)
    requires ValidCivil(c)
    ensures 0 <= DayNumber(c) < DaysInRange && 0 <= TimeOfDay(c) < MicrosPerDay
    ensures CivilAt(DayNumber(c), TimeOfDay(c)) == c
  {
    DayNumberBound(c);
    TimeOfDayBound(c);
    var rest := TimeOfDay(c);
    assert DateOf(DayNumber(c)) == (c.year, c.month, c.day) by {
      DateOfInverse(c);
    }
    assert && rest / MicrosPerHour == c.hour
           && rest % MicrosPerHour / MicrosPerMinute == c.minute
           && rest % MicrosPerMinute / MicrosPerSecond == c.second
           && rest % MicrosPerSecond == c.micro by {
      ClockJoin(c.hour, c.minute, c.second, c.micro);
    }
  }

  /** Valid fields survive the trip through a wall-clock value unchanged. */
  lemma FromCivilInverse(c: Civil)
    requires ValidCivil(c)
    ensures ToCivil(FromCivil(c)) == c
  {
    var t, n, rest := FromCivil(c), DayNumber(c), TimeOfDay(c);
    CivilAtInverse(c);
    SplitDay(t, n, rest);
    assert ToCivil(t) == CivilAt(n, rest);
  }

  /** A value built from whole-second fields is a whole number of seconds. */
  lemma WholeSeconds(c: Civil)
    requires ValidCivil(c) && c.micro == 0
    ensures FromCivil(c) % MicrosPerSecond == 0
  {
    var secs := DayNumber(c) * 86400 + c.hour * 3600 + c.minute * 60 + c.second;
    assert FromCivil(c) == secs * MicrosPerSecond;
  }

  /** `datetime(year, month, day, hour, minute, second)`: the wall-clock value
      of the fields, or None where the constructor raises ValueError. */
  function Construct(year: int, month: int, day: int, hour: int, minute: int, second: int): (r: Option<int>)
    ensures r.Some? <==> ValidCivil(Civil(year, month, day, hour, minute, second, 0))
    ensures r.Some? ==> InRange(r.value) && r.value % MicrosPerSecond == 0
    ensures r.Some? ==> ToCivil(r.value) == Civil(year, month, day, hour, minute, second, 0)
  {
    var c := Civil(year, month, day, hour, minute, second, 0);
    if ValidCivil(c) then
      FromCivilInverse(c);
      WholeSeconds(c);
      Some(FromCivil(c))
    else None
  }

  /** The rest of the day of a whole number of seconds is whole seconds. */
  lemma RestOfWholeSeconds(t: int)
    requires t >= 0 && t % MicrosPerSecond == 0
    ensures t % MicrosPerDay % MicrosPerSecond == 0
  {
    var q, s := t / MicrosPerDay, t / MicrosPerSecond;
    assert t % MicrosPerDay == (s - q * 86400) * MicrosPerSecond;
  }

  /** A whole number of seconds has no microseconds in its fields. */
  lemma WholeSecondsFields(t: int)
    requires InRange(t) && t % MicrosPerSecond == 0
    ensures ToCivil(t).micro == 0
  {
    RestOfWholeSeconds(t);
  }
}
