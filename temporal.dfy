/** The values of `java.time` that the library works on, reduced to what the
    modelled code reads and writes:
    - a zone is an identifier with a fixed offset from UTC (a `ZoneOffset`);
    - a `LocalTime` is hour, minute, second and nano-of-second;
    - a `ZonedDateTime` is a local date (counted in days from 1970-01-01),
      a `LocalTime` and a zone;
    - a `Duration` is a whole number of milliseconds, a `Period` is years,
      months and days;
    - `DayOfWeek` and `Month` are the two enumerations, in declaration order. */
module Temporal {
  import opened Outcomes
  import opened Int64
  import opened Arithmetic

  const NANOS_PER_MILLI: int := 1_000_000
  const NANOS_PER_SECOND: int := 1_000_000_000
  const MILLIS_PER_SECOND: int := 1000
  const MILLIS_PER_MINUTE: int := 60_000
  const MILLIS_PER_HOUR: int := 3_600_000
  const MILLIS_PER_DAY: int := 86_400_000
  const MINUTES_PER_HOUR: int := 60
  const MINUTES_PER_DAY: int := 1440

  /** A time zone: its identifier and its offset from UTC in seconds. */
  datatype ZoneId = ZoneId(id: string, offsetSeconds: int)

  /** `ZoneOffset.MAX`, the zone "+18:00". */
  const ZONE_OFFSET_MAX: ZoneId := ZoneId("+18:00", 18 * 3600)

  type Hour = h: int | 0 <= h < 24
  type Minute = m: int | 0 <= m < 60
  type Second = s: int | 0 <= s < 60
  type Nano = n: int | 0 <= n < 1_000_000_000

  /** `java.time.LocalTime`: a wall-clock time of day. */
  datatype LocalTime = LocalTime(hour: Hour, minute: Minute, second: Second, nano: Nano) {

    /** Minutes elapsed since midnight. */
    function MinuteOfDay(): (r: int)
      ensures 0 <= r < MINUTES_PER_DAY
    {
      hour * MINUTES_PER_HOUR + minute
    }

    /** Milliseconds elapsed since midnight (the nanos truncated). */
    function MillisOfDay(): (r: int)
      ensures 0 <= r < MILLIS_PER_DAY
      ensures r / MILLIS_PER_MINUTE == MinuteOfDay()
    {
      hour * MILLIS_PER_HOUR + minute * MILLIS_PER_MINUTE + second * MILLIS_PER_SECOND + nano / NANOS_PER_MILLI
    }

    /** `time.withSecond(0).withNano(0)`. */
    function TruncatedToMinute(): LocalTime {
      LocalTime(hour, minute, 0, 0)
    }

    function WithMinute(m: Minute): LocalTime {
      LocalTime(hour, m, second, nano)
    }

    /** `time.plusHours(1)`: a `LocalTime` wraps round midnight. */
    function PlusOneHour(): (r: LocalTime)
      ensures r.MinuteOfDay() == (MinuteOfDay() + MINUTES_PER_HOUR) % MINUTES_PER_DAY
    {
      LocalTime((hour + 1) % 24, minute, second, nano)
    }
  }

  /** `java.time.ZonedDateTime` in a fixed-offset zone: the local date as a
      count of days from 1970-01-01, the local time and the zone. */
  datatype ZonedDateTime = ZonedDateTime(date: int, time: LocalTime, zone: ZoneId) {

    /** Minutes of local time elapsed since 1970-01-01T00:00 local. */
    function EpochMinute(): int {
      date * MINUTES_PER_DAY + time.MinuteOfDay()
    }

    /** Milliseconds of local time elapsed since 1970-01-01T00:00 local. */
    function LocalMillis(): int {
      date * MILLIS_PER_DAY + time.MillisOfDay()
    }

    /** `toInstant().toEpochMilli()`: the local reading minus the offset,
        sub-millisecond nanos dropped. (Java throws when this leaves the
        `long` range; callers of this model check `IsLong` on it.) */
    function ToEpochMilli(): int {
      LocalMillis() - zone.offsetSeconds * MILLIS_PER_SECOND
    }

    /** True when the nanos hold no sub-millisecond part, so that the value
        is determined by its epoch millisecond and its zone. */
    predicate IsMilliPrecise() {
      time.nano % NANOS_PER_MILLI == 0
    }

    function TruncatedToMinute(): ZonedDateTime {
      ZonedDateTime(date, time.TruncatedToMinute(), zone)
    }

    function WithMinute(m: Minute): ZonedDateTime {
      ZonedDateTime(date, time.WithMinute(m), zone)
    }

    /** `plusHours(1)`: one hour later on the time-line, the local date
        rolling over at midnight. */
    function PlusOneHour(): (r: ZonedDateTime)
      ensures r.EpochMinute() == EpochMinute() + MINUTES_PER_HOUR
      ensures r.ToEpochMilli() == ToEpochMilli() + MILLIS_PER_HOUR
      ensures r.zone == zone
    {
      if time.hour < 23 then ZonedDateTime(date, time.PlusOneHour(), zone)
      else ZonedDateTime(date + 1, time.PlusOneHour(), zone)
    }

    function PlusDays(n: int): (r: ZonedDateTime)
      ensures r.ToEpochMilli() == ToEpochMilli() + n * MILLIS_PER_DAY
    {
      ZonedDateTime(date + n, time, zone)
    }

    /** `plus(d)` for a whole-millisecond duration. */
    function Plus(d: Duration): (r: ZonedDateTime)
      ensures r.zone == zone && r.IsMilliPrecise()
      ensures r.ToEpochMilli() == ToEpochMilli() + d.millis
    {
      OfInstantToEpochMilli(ToEpochMilli() + d.millis, zone);
      OfInstant(ToEpochMilli() + d.millis, zone)
    }

    /** `minus(d)` for a whole-millisecond duration. */
    function Minus(d: Duration): (r: ZonedDateTime)
      ensures r.zone == zone && r.IsMilliPrecise()
      ensures r.ToEpochMilli() == ToEpochMilli() - d.millis
    {
      Plus(Duration(-d.millis))
    }

    /** `getDayOfWeek()`: 1970-01-01 was a Thursday. */
    function DayOfWeek(): DayOfWeek {
      DayOfWeekOfEpochDay(date)
    }
  }

  /** `ZonedDateTime.ofInstant(Instant.ofEpochMilli(millis), zone)`. */
  function OfInstant(millis: int, zone: ZoneId): (t: ZonedDateTime)
    ensures t.zone == zone && t.IsMilliPrecise()
  {
    var local := millis + zone.offsetSeconds * MILLIS_PER_SECOND;
    var ms := local % MILLIS_PER_DAY;
    ZonedDateTime(local / MILLIS_PER_DAY,
                  LocalTime(ms / MILLIS_PER_HOUR, (ms / MILLIS_PER_MINUTE) % 60,
                            (ms / MILLIS_PER_SECOND) % 60, (ms % MILLIS_PER_SECOND) * NANOS_PER_MILLI),
                  zone)
  }

  /** `localDate.atStartOfDay(zone)`: midnight of the day in the zone. */
  function AtStartOfDay(day: int, zone: ZoneId): (t: ZonedDateTime)
    ensures t.ToEpochMilli() == day * MILLIS_PER_DAY - zone.offsetSeconds * MILLIS_PER_SECOND
    ensures t.IsMilliPrecise()
  {
    ZonedDateTime(day, LocalTime(0, 0, 0, 0), zone)
  }

  /** Splitting a millisecond-of-day into fields and adding them up again
      gives it back. */
  lemma MillisOfDaySplit(ms: int)
    requires 0 <= ms < MILLIS_PER_DAY
    ensures (ms / MILLIS_PER_HOUR) * MILLIS_PER_HOUR + ((ms / MILLIS_PER_MINUTE) % 60) * MILLIS_PER_MINUTE
            + ((ms / MILLIS_PER_SECOND) % 60) * MILLIS_PER_SECOND + ms % MILLIS_PER_SECOND == ms
  {
    var secs, mins := ms / MILLIS_PER_SECOND, ms / MILLIS_PER_MINUTE;
    assert secs / 60 == mins;
    assert mins / 60 == ms / MILLIS_PER_HOUR;
    assert secs == mins * 60 + secs % 60;
    assert mins == (ms / MILLIS_PER_HOUR) * 60 + mins % 60;
  }

  /** Reading an instant in a zone preserves the instant. */
  lemma {:induction false} OfInstantToEpochMilli(millis: int, zone: ZoneId)
    ensures OfInstant(millis, zone).ToEpochMilli() == millis
  {
    var local := millis + zone.offsetSeconds * MILLIS_PER_SECOND;
    var ms := local % MILLIS_PER_DAY;
    MillisOfDaySplit(ms);
    assert ((ms % MILLIS_PER_SECOND) * NANOS_PER_MILLI) / NANOS_PER_MILLI == ms % MILLIS_PER_SECOND;
    assert OfInstant(millis, zone).time.MillisOfDay() == ms;
  }

  /** A millisecond-precise zoned date-time is its instant read in its zone. */
  lemma {:induction false} ToEpochMilliOfInstant(t: ZonedDateTime)
    requires t.IsMilliPrecise()
    ensures OfInstant(t.ToEpochMilli(), t.zone) == t
  {
    var h: int, m: int, s: int := t.time.hour, t.time.minute, t.time.second;
    var milli := t.time.nano / NANOS_PER_MILLI;
    DivModUnique(t.time.nano, milli, 0, NANOS_PER_MILLI);
    var ms := t.time.MillisOfDay();
    assert ms == h * MILLIS_PER_HOUR + m * MILLIS_PER_MINUTE + s * MILLIS_PER_SECOND + milli;
    var local := t.ToEpochMilli() + t.zone.offsetSeconds * MILLIS_PER_SECOND;
    DivModUnique(local, t.date, ms, MILLIS_PER_DAY);
    DivModUnique(ms, h, m * MILLIS_PER_MINUTE + s * MILLIS_PER_SECOND + milli, MILLIS_PER_HOUR);
    DivModUnique(ms, h * 60 + m, s * MILLIS_PER_SECOND + milli, MILLIS_PER_MINUTE);
    DivModUnique(ms, (h * 60 + m) * 60 + s, milli, MILLIS_PER_SECOND);
    DivModUnique(h * 60 + m, h, m, 60);
    DivModUnique((h * 60 + m) * 60 + s, h * 60 + m, s, 60);
    var u := OfInstant(t.ToEpochMilli(), t.zone);
    assert u.date == t.date;
    assert u.time.hour == h && u.time.minute == m && u.time.second == s;
    assert u.time.nano == t.time.nano;
  }

  /** `java.time.Duration`, restricted to whole milliseconds. */
  datatype Duration = Duration(millis: int) {
    /** `toNanos()`: throws `ArithmeticException` when the count of nanos
        does not fit a `long`. */
    function ToNanos(): (r: Result<Long>)
      ensures r.Ok? <==> IsLong(millis * NANOS_PER_MILLI)
      ensures r.Ok? ==> r.value == millis * NANOS_PER_MILLI
      ensures r.Err? ==> r.error == ArithmeticOverflow
    {
      var nanos := millis * NANOS_PER_MILLI;
      if IsLong(nanos) then Ok(nanos) else Err(ArithmeticOverflow)
    }
  }

  /** `Duration.ofNanos(nanos)` for a whole number of milliseconds. */
  function DurationOfNanos(nanos: int): (d: Duration)
    requires nanos % NANOS_PER_MILLI == 0
    ensures d.millis * NANOS_PER_MILLI == nanos
  {
    Duration(nanos / NANOS_PER_MILLI)
  }

  /** `Duration.ofDays(days)`. */
  function DurationOfDays(days: int): (d: Duration)
    ensures d.millis == days * MILLIS_PER_DAY
  {
    Duration(days * MILLIS_PER_DAY)
  }

  /** `java.time.Period`. */
  datatype Period = Period(years: int, months: int, days: int)

  /** `java.time.DayOfWeek`, identified by its number `getValue()`: 1 for
      Monday up to 7 for Sunday, which is also its declaration order. */
  newtype DayOfWeek = v: int | 1 <= v <= 7 witness 1 {
    /** `getValue()`. */
    function Value(): (v: int)
      ensures 1 <= v <= 7
    {
      this as int
    }

    /** `name()`. */
    function Name(): string {
      DAY_OF_WEEK_NAMES[Value() - 1]
    }
  }

  /** The names of the days, in declaration order. */
  const DAY_OF_WEEK_NAMES: seq<string> :=
    ["MONDAY", "TUESDAY", "WEDNESDAY", "THURSDAY", "FRIDAY", "SATURDAY", "SUNDAY"]

  const Monday: DayOfWeek := 1
  const Tuesday: DayOfWeek := 2
  const Wednesday: DayOfWeek := 3
  const Thursday: DayOfWeek := 4
  const Friday: DayOfWeek := 5
  const Saturday: DayOfWeek := 6
  const Sunday: DayOfWeek := 7

  /** `DayOfWeek.of(v)`: the source only calls it with a value in 1..7. */
  function DayOfWeekOf(v: int): (d: DayOfWeek)
    requires 1 <= v <= 7
  {
    v as DayOfWeek
  }

  /** `LocalDate.ofEpochDay(day).getDayOfWeek()`: 1970-01-01 was a
      Thursday. */
  function DayOfWeekOfEpochDay(day: int): (d: DayOfWeek)
    ensures d.Value() == (day + 3) % 7 + 1
  {
    DayOfWeekOf((day + 3) % 7 + 1)
  }

  /** `java.time.Month`, identified by its number `getValue()`: 1 for
      January up to 12 for December, which is also its declaration order. */
  newtype Month = v: int | 1 <= v <= 12 witness 1 {
    /** `getValue()`. */
    function Value(): (v: int)
      ensures 1 <= v <= 12
    {
      this as int
    }

    /** `name()`. */
    function Name(): string {
      MONTH_NAMES[Value() - 1]
    }
  }

  /** The names of the months, in declaration order. */
  const MONTH_NAMES: seq<string> :=
    ["JANUARY", "FEBRUARY", "MARCH", "APRIL", "MAY", "JUNE",
     "JULY", "AUGUST", "SEPTEMBER", "OCTOBER", "NOVEMBER", "DECEMBER"]

  const January: Month := 1
  const February: Month := 2
  const March: Month := 3
  const April: Month := 4
  const May: Month := 5
  const June: Month := 6
  const July: Month := 7
  const August: Month := 8
  const September: Month := 9
  const October: Month := 10
  const November: Month := 11
  const December: Month := 12

  /** `Month.of(v)`: the source only calls it with a value in 1..12. */
  function MonthOf(v: int): (m: Month)
    requires 1 <= v <= 12
  {
    v as Month
  }

  predicate IsLeapYear(year: int) {
    year % 4 == 0 && (year % 100 != 0 || year % 400 == 0)
  }

  /** `LocalDate.of(year, month, day).toEpochDay()` for a year of the common
      era (the only kind the library names). */
  function EpochDay(year: nat, month: int, day: int): int
    requires 1 <= month <= 12
  {
    var total := 365 * year + (year + 3) / 4 - (year + 99) / 100 + (year + 399) / 400
                 + (367 * month - 362) / 12 + day - 1;
    var adjusted := if month <= 2 then total else if IsLeapYear(year) then total - 1 else total - 2;
    adjusted - 719528
  }
}
