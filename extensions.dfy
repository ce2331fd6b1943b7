/** `Jsr310Extensions`: minute rounding of times of day and of zoned
    date-times, intervals built from a point and a duration, the
    day-of-week and month ranges, the next-weekday search and the
    period-to-duration conversion. */
module Extensions {
  import opened Outcomes
  import opened Int64
  import opened Temporal
  import opened ZonedIntervals
  import opened Arithmetic

  // ---------------------------------------------------------------------
  // Arithmetic on multiples of a step

  /** The largest multiple of `step` not above `x`. */
  function FloorToMultiple(x: int, step: int): (r: int)
    requires step >= 1
    ensures r % step == 0 && r <= x < r + step
  {
    var q := x / step;
    DivModUnique(q * step, q, 0, step);
    q * step
  }

  /** The smallest multiple of `step` not below `x`. */
  function CeilToMultiple(x: int, step: int): (r: int)
    requires step >= 1
    ensures r % step == 0 && r - step < x <= r
  {
    if x % step == 0 then x
    else
      var q := x / step + 1;
      DivModUnique(q * step, q, 0, step);
      q * step
  }

  /** The source's `x - x % step` is the multiple below `x`. */
  lemma FloorIsMinusRemainder(x: int, step: int)
    requires step >= 1
    ensures x - x % step == FloorToMultiple(x, step)
  {
    assert x == (x / step) * step + x % step;
  }

  /** The source's `x + step - x % step` is the multiple above a misaligned
      `x`. */
  lemma CeilIsPlusComplement(x: int, step: int)
    requires step >= 1 && x % step != 0
    ensures x + step - x % step == CeilToMultiple(x, step)
  {
    assert x == (x / step) * step + x % step;
    assert (x / step + 1) * step == (x / step) * step + step;
  }

  /** Adding a multiple of `step` keeps the remainder modulo `step`. */
  lemma ModAddMultiple(x: int, a: int, step: int)
    requires step >= 1
    ensures (x + a * step) % step == x % step
  {
    var q, r := x / step, x % step;
    assert x == q * step + r;
    assert x + a * step == (q + a) * step + r;
    DivModUnique(x + a * step, q + a, r, step);
  }

  /** When `step` divides an hour, a count of whole hours plus `m` minutes
      has the remainder of `m` modulo `step`. */
  lemma HoursKeepRemainder(hours: int, m: int, step: int)
    requires step >= 1 && 60 % step == 0
    ensures (hours * 60 + m) % step == m % step
  {
    var c := 60 / step;
    assert 60 == c * step;
    assert hours * 60 == (hours * c) * step;
    ModAddMultiple(m, hours * c, step);
  }

  /** When `step` divides an hour, the next multiple of `step` after a
      misaligned minute is at most 60. */
  lemma NextMultipleWithinHour(mins: int, step: int)
    requires 0 <= mins < 60 && step >= 1 && 60 % step == 0 && mins % step != 0
    ensures mins + step - mins % step == CeilToMultiple(mins, step) <= 60
  {
    CeilIsPlusComplement(mins, step);
    var q, c := mins / step, 60 / step;
    assert 60 == c * step;
    assert mins == q * step + mins % step;
    MulLessCancel(q, c, step);
    MulMono(q + 1, c, step);
  }

  // ---------------------------------------------------------------------
  // Minute rounding of a LocalTime

  /** `roundDownMinutes(LocalTime, step)`. The check that `step` divides an
      hour only runs when the minute is not already a multiple of `step`. */
  function RoundDownMinutesLocal(time: LocalTime, step: int): (r: Result<LocalTime>)
    requires step >= 1
    ensures r.Ok? <==> time.minute % step == 0 || 60 % step == 0
    ensures r.Err? ==> r.error == IllegalArgument
    ensures r.Ok? ==> r.value.hour == time.hour && r.value.second == 0 && r.value.nano == 0
    ensures r.Ok? ==> r.value.minute == FloorToMultiple(time.minute, step)
  {
    var mins := time.minute;
    var t := time.TruncatedToMinute();
    if mins % step == 0 then Ok(t)
    else if 60 % step != 0 then Err(IllegalArgument)
    else Ok(t.WithMinute(mins - mins % step))
  }

  /** `roundUpMinutes(LocalTime, step)`: a `LocalTime` wraps from 23:xx to
      00:00. */
  function RoundUpMinutesLocal(time: LocalTime, step: int): (r: Result<LocalTime>)
    requires step >= 1
    ensures r.Ok? <==> time.minute % step == 0 || 60 % step == 0
    ensures r.Err? ==> r.error == IllegalArgument
    ensures r.Ok? ==> r.value.second == 0 && r.value.nano == 0 && r.value.minute % step == 0
  {
    var mins := time.minute;
    var t := time.TruncatedToMinute();
    if mins % step == 0 then Ok(t)
    else if 60 % step != 0 then Err(IllegalArgument)
    else
      NextMultipleWithinHour(mins, step);
      var up := mins + step - mins % step;
      if up < 60 then Ok(t.WithMinute(up))
      else
        DivModUnique(0, 0, 0, step);
        Ok(t.PlusOneHour().WithMinute(up - 60))
  }

  /** The step check depends on the data: with a step that does not divide
      an hour, an aligned minute is returned truncated, any other throws. */
  lemma RoundingWithInvalidStep(time: LocalTime, step: int)
    requires step >= 1 && 60 % step != 0
    ensures RoundDownMinutesLocal(time, step) == RoundUpMinutesLocal(time, step)
    ensures RoundUpMinutesLocal(time, step) ==
              if time.minute % step == 0 then Ok(time.TruncatedToMinute()) else Err(IllegalArgument)
  {
  }

  /** With a step that divides an hour, rounding down gives the minute of
      the day rounded down to a multiple of `step`. */
  lemma RoundDownMinutesLocalIsFloor(time: LocalTime, step: int)
    requires step >= 1 && 60 % step == 0
    ensures RoundDownMinutesLocal(time, step).Ok?
    ensures RoundDownMinutesLocal(time, step).value.MinuteOfDay() == FloorToMultiple(time.MinuteOfDay(), step)
  {
    HoursKeepRemainder(time.hour, time.minute, step);
  }

  /** With a step that divides an hour, rounding up gives the minute of the
      day rounded up to a multiple of `step`, wrapping at midnight. */
  lemma RoundUpMinutesLocalIsCeil(time: LocalTime, step: int)
    requires step >= 1 && 60 % step == 0
    ensures RoundUpMinutesLocal(time, step).Ok?
    ensures RoundUpMinutesLocal(time, step).value.MinuteOfDay()
            == CeilToMultiple(time.MinuteOfDay(), step) % MINUTES_PER_DAY
  {
    HoursKeepRemainder(time.hour, time.minute, step);
    var m, mod := time.minute, time.MinuteOfDay();
    var r := RoundUpMinutesLocal(time, step).value;
    if m % step == 0 {
      assert r.MinuteOfDay() == mod == CeilToMultiple(mod, step);
    } else {
      NextMultipleWithinHour(m, step);
      CeilIsPlusComplement(mod, step);
      var up := m + step - m % step;
      assert CeilToMultiple(mod, step) == time.hour * 60 + up;
      if up < 60 {
        assert r.MinuteOfDay() == time.hour * 60 + up;
      } else {
        assert r.hour == (time.hour + 1) % 24 && r.minute == 0;
      }
    }
  }

  // ---------------------------------------------------------------------
  // Minute rounding of a ZonedDateTime

  /** `roundDownMinutes(ZonedDateTime, step)`. */
  function RoundDownMinutes(time: ZonedDateTime, step: int): (r: Result<ZonedDateTime>)
    requires step >= 1
    ensures r.Ok? <==> time.time.minute % step == 0 || 60 % step == 0
    ensures r.Err? ==> r.error == IllegalArgument
    ensures r.Ok? ==> r.value.date == time.date && r.value.zone == time.zone
    ensures r.Ok? ==> r.value.time == RoundDownMinutesLocal(time.time, step).value
  {
    var mins := time.time.minute;
    var t := time.TruncatedToMinute();
    if mins % step == 0 then Ok(t)
    else if 60 % step != 0 then Err(IllegalArgument)
    else Ok(t.WithMinute(mins - mins % step))
  }

  /** `roundUpMinutes(ZonedDateTime, step)`: the hour carry rolls into the
      next day. */
  function RoundUpMinutes(time: ZonedDateTime, step: int): (r: Result<ZonedDateTime>)
    requires step >= 1
    ensures r.Ok? <==> time.time.minute % step == 0 || 60 % step == 0
    ensures r.Err? ==> r.error == IllegalArgument
    ensures r.Ok? ==> r.value.zone == time.zone && r.value.time == RoundUpMinutesLocal(time.time, step).value
    ensures r.Ok? ==> time.EpochMinute() <= r.value.EpochMinute() < time.EpochMinute() + MINUTES_PER_HOUR
  {
    var mins := time.time.minute;
    var t := time.TruncatedToMinute();
    if mins % step == 0 then Ok(t)
    else if 60 % step != 0 then Err(IllegalArgument)
    else
      NextMultipleWithinHour(mins, step);
      var up := mins + step - mins % step;
      if up < 60 then Ok(t.WithMinute(up)) else Ok(t.PlusOneHour().WithMinute(up - 60))
  }

  /** Rounding down keeps the date and the hour and gives the minute of the
      time-line rounded down to a multiple of `step`. */
  lemma RoundDownMinutesIsFloor(time: ZonedDateTime, step: int)
    requires step >= 1 && 60 % step == 0
    ensures RoundDownMinutes(time, step).Ok?
    ensures RoundDownMinutes(time, step).value.EpochMinute() == FloorToMultiple(time.EpochMinute(), step)
  {
    HoursKeepRemainder(time.date * 24 + time.time.hour, time.time.minute, step);
  }

  /** Rounding up gives the minute of the time-line rounded up to a multiple
      of `step`: 23:50 rounded up by 15 is 00:00 the next day. */
  lemma RoundUpMinutesIsCeil(time: ZonedDateTime, step: int)
    requires step >= 1 && 60 % step == 0
    ensures RoundUpMinutes(time, step).Ok?
    ensures RoundUpMinutes(time, step).value.EpochMinute() == CeilToMultiple(time.EpochMinute(), step)
  {
    var m, e := time.time.minute, time.EpochMinute();
    HoursKeepRemainder(time.date * 24 + time.time.hour, m, step);
    assert e == (time.date * 24 + time.time.hour) * 60 + m;
    var r := RoundUpMinutes(time, step).value;
    if m % step == 0 {
      assert r.EpochMinute() == e == CeilToMultiple(e, step);
    } else {
      NextMultipleWithinHour(m, step);
      CeilIsPlusComplement(e, step);
      assert r.EpochMinute() == e - m + (m + step - m % step);
    }
  }

  /** The rounded date-time lies within a minute before and an hour after
      the original instant. */
  lemma RoundUpMinutesMovesLittle(time: ZonedDateTime, step: int)
    requires step >= 1 && RoundUpMinutes(time, step).Ok?
    ensures time.ToEpochMilli() - MILLIS_PER_MINUTE < RoundUpMinutes(time, step).value.ToEpochMilli()
    ensures RoundUpMinutes(time, step).value.ToEpochMilli() < time.ToEpochMilli() + MILLIS_PER_HOUR
    ensures RoundUpMinutes(time, step).value.IsMilliPrecise()
  {
    var r := RoundUpMinutes(time, step).value;
    assert r.LocalMillis() == r.EpochMinute() * MILLIS_PER_MINUTE;
    assert time.time.MillisOfDay() / MILLIS_PER_MINUTE == time.time.MinuteOfDay();
    assert time.EpochMinute() * MILLIS_PER_MINUTE <= time.LocalMillis() < time.EpochMinute() * MILLIS_PER_MINUTE + MILLIS_PER_MINUTE;
  }

  // ---------------------------------------------------------------------
  // Rounding both ends of an interval

  /** Epoch milliseconds far enough from the `long` limits that rounding
      them to a minute keeps them within a `long`. */
  predicate RoundableMillis(m: int) {
    LONG_MIN + MILLIS_PER_MINUTE <= m <= LONG_MAX - MILLIS_PER_HOUR
  }

  /** `roundUpMinutes(ZonedInterval, step)`: rounds the start and the end
      independently and returns the interval itself when neither moved. */
  function RoundUpMinutesInterval(i: ZonedInterval, step: int): (r: Result<ZonedInterval>)
    requires step >= 1 && RoundableMillis(i.start) && RoundableMillis(i.end)
    ensures r.Ok? <==> RoundUpMinutes(i.GetStart(), step).Ok? && RoundUpMinutes(i.GetEnd(), step).Ok?
    ensures r.Err? ==> r.error == IllegalArgument
    ensures r.Ok? ==> r.value.zone == i.zone
    ensures r.Ok? ==> r.value.GetStart() == RoundUpMinutes(i.GetStart(), step).value
    ensures r.Ok? ==> r.value.GetEnd() == RoundUpMinutes(i.GetEnd(), step).value
  {
    var start :- RoundUpMinutes(i.GetStart(), step);
    var end :- RoundUpMinutes(i.GetEnd(), step);
    RoundUpMinutesMovesLittle(i.GetStart(), step);
    RoundUpMinutesMovesLittle(i.GetEnd(), step);
    OfZonedKeepsEndpoints(start, end);
    if start == i.GetStart() && end == i.GetEnd() then Ok(i)
    else Ok(OfZoned(start, end))
  }

  /** The shortcut that returns the interval itself changes no value: the
      result is always the interval of the two rounded endpoints, and it is
      the original interval exactly when neither endpoint moved. */
  lemma RoundUpMinutesIntervalShortcut(i: ZonedInterval, step: int)
    requires step >= 1 && RoundableMillis(i.start) && RoundableMillis(i.end)
    requires RoundUpMinutesInterval(i, step).Ok?
    ensures var s, e := RoundUpMinutes(i.GetStart(), step).value, RoundUpMinutes(i.GetEnd(), step).value;
            RoundUpMinutesInterval(i, step).value == ZonedInterval(s.ToEpochMilli(), e.ToEpochMilli(), i.zone)
            && (RoundUpMinutesInterval(i, step).value == i <==> s == i.GetStart() && e == i.GetEnd())
  {
    var s, e := RoundUpMinutes(i.GetStart(), step).value, RoundUpMinutes(i.GetEnd(), step).value;
    var r := RoundUpMinutesInterval(i, step).value;
    if r == i {
      assert r.GetStart() == i.GetStart();
    }
  }

  /** With a step that divides an hour, both ends of the rounded interval
      are the ends of the original rounded up to a multiple of `step`. */
  lemma RoundUpMinutesIntervalIsCeil(i: ZonedInterval, step: int)
    requires step >= 1 && 60 % step == 0 && RoundableMillis(i.start) && RoundableMillis(i.end)
    ensures RoundUpMinutesInterval(i, step).Ok?
    ensures RoundUpMinutesInterval(i, step).value.GetStart().EpochMinute()
            == CeilToMultiple(i.GetStart().EpochMinute(), step)
    ensures RoundUpMinutesInterval(i, step).value.GetEnd().EpochMinute()
            == CeilToMultiple(i.GetEnd().EpochMinute(), step)
  {
    RoundUpMinutesIsCeil(i.GetStart(), step);
    RoundUpMinutesIsCeil(i.GetEnd(), step);
  }

  // ---------------------------------------------------------------------
  // Intervals from a point and a duration

  /** `negative(Duration)`: `Duration.ofNanos(-d.toNanos())`. The count of
      nanoseconds is a whole number of milliseconds, so it is never
      `Long.MIN_VALUE` and its negation never wraps. */
  function Negative(d: Duration): (r: Result<Duration>)
    ensures r.Ok? <==> d.ToNanos().Ok?
    ensures r.Err? ==> r.error == ArithmeticOverflow
    ensures r.Ok? ==> r.value.millis == -d.millis
  {
    var nanos :- d.ToNanos();
    assert LONG_MIN % NANOS_PER_MILLI != 0;
    Ok(DurationOfNanos(Negate(nanos)))
  }

  /** Negating twice gives the duration back. */
  lemma NegativeIsInvolution(d: Duration)
    requires d.ToNanos().Ok?
    ensures Negative(d).Ok? && Negative(Negative(d).value) == Ok(d)
  {
  }

  /** Both instants an interval from `from` over `d` touches fit a `long`. */
  predicate SpanFitsLong(from: ZonedDateTime, millis: int) {
    IsLong(from.ToEpochMilli()) && IsLong(from.ToEpochMilli() + millis)
  }

  /** `upTo(from, d)`: the interval from `from` to `from + d`, taken the
      other way round when `d` is negative. */
  function UpTo(from: ZonedDateTime, d: Duration): (r: Result<ZonedInterval>)
    requires d.ToNanos().Ok? ==> SpanFitsLong(from, d.millis)
    ensures r.Ok? <==> d.ToNanos().Ok?
    ensures r.Err? ==> r.error == ArithmeticOverflow
    ensures r.Ok? ==> r.value.zone == from.zone && r.value.IsOrdered()
    ensures r.Ok? ==> r.value.end - r.value.start == if d.millis >= 0 then d.millis else -d.millis
    ensures r.Ok? && d.millis >= 0 ==> r.value.start == from.ToEpochMilli()
    ensures r.Ok? && d.millis < 0 ==> r.value.end == from.ToEpochMilli()
  {
    var nanos :- d.ToNanos();
    if nanos >= 0 then Ok(OfZoned(from, from.Plus(d))) else Ok(OfZoned(from.Plus(d), from))
  }

  /** `upFrom(from, d)`: the interval that ends at `from` and lasts `d`, by
      way of `upTo(from, negative(d))`. */
  function UpFrom(from: ZonedDateTime, d: Duration): (r: Result<ZonedInterval>)
    requires d.ToNanos().Ok? ==> SpanFitsLong(from, -d.millis)
    ensures r.Ok? <==> d.ToNanos().Ok?
    ensures r.Err? ==> r.error == ArithmeticOverflow
    ensures r.Ok? ==> r.value.zone == from.zone && r.value.IsOrdered()
    ensures r.Ok? ==> r.value.end - r.value.start == if d.millis >= 0 then d.millis else -d.millis
    ensures r.Ok? && d.millis >= 0 ==> r.value.end == from.ToEpochMilli()
    ensures r.Ok? && d.millis < 0 ==> r.value.start == from.ToEpochMilli()
  {
    var neg :- Negative(d);
    UpTo(from, neg)
  }

  /** An interval up from a point and one up to it over the same duration
      abut at that point. */
  lemma UpFromAbutsUpTo(from: ZonedDateTime, d: Duration)
    requires d.millis > 0 && d.ToNanos().Ok?
    requires SpanFitsLong(from, d.millis) && SpanFitsLong(from, -d.millis)
    ensures UpFrom(from, d).value.Abuts(UpTo(from, d).value)
    ensures !UpFrom(from, d).value.Overlaps(UpTo(from, d).value)
  {
  }

  // ---------------------------------------------------------------------
  // Ranges of days of the week and of months

  /** `count` consecutive days of the week from the one with index `first`
      (Monday is 0), wrapping from Sunday to Monday. */
  function DayCycle(first: nat, count: nat): (r: seq<DayOfWeek>)
    ensures |r| == count
  {
    if count == 0 then [] else DayCycle(first, count - 1) + [DayOfWeekOf((first + count - 1) % 7 + 1)]
  }

  /** `count` consecutive months from the one with index `first` (January is
      0), wrapping from December to January. */
  function MonthCycle(first: nat, count: nat): (r: seq<Month>)
    ensures |r| == count
  {
    if count == 0 then [] else MonthCycle(first, count - 1) + [MonthOf((first + count - 1) % 12 + 1)]
  }

  /** The `k`-th day of a cycle is the one `k` places after the first. */
  lemma {:induction false} DayCycleAt(first: nat, count: nat, k: nat)
    requires k < count
    ensures DayCycle(first, count)[k].Value() == (first + k) % 7 + 1
  {
    if k < count - 1 {
      DayCycleAt(first, count - 1, k);
    }
  }

  /** The `k`-th month of a cycle is the one `k` places after the first. */
  lemma {:induction false} MonthCycleAt(first: nat, count: nat, k: nat)
    requires k < count
    ensures MonthCycle(first, count)[k].Value() == (first + k) % 12 + 1
  {
    if k < count - 1 {
      MonthCycleAt(first, count - 1, k);
    }
  }

  /** A sequence that has the days of a cycle in every place is that
      cycle. */
  lemma {:induction false} DayCycleByElements(first: nat, days: seq<DayOfWeek>)
    requires forall k :: 0 <= k < |days| ==> days[k].Value() == (first + k) % 7 + 1
    ensures days == DayCycle(first, |days|)
  {
    if |days| > 0 {
      DayCycleByElements(first, days[..|days| - 1]);
      assert days == days[..|days| - 1] + [days[|days| - 1]];
    }
  }

  /** A sequence that has the months of a cycle in every place is that
      cycle. */
  lemma {:induction false} MonthCycleByElements(first: nat, months: seq<Month>)
    requires forall k :: 0 <= k < |months| ==> months[k].Value() == (first + k) % 12 + 1
    ensures months == MonthCycle(first, |months|)
  {
    if |months| > 0 {
      MonthCycleByElements(first, months[..|months| - 1]);
      assert months == months[..|months| - 1] + [months[|months| - 1]];
    }
  }

  /** Each day is followed by the next one and no day comes twice. */
  predicate IsDayOfWeekRun(r: seq<DayOfWeek>) {
    (forall k :: 0 <= k < |r| - 1 ==> r[k + 1].Value() == r[k].Value() % 7 + 1)
    && (forall j, k :: 0 <= j < k < |r| ==> r[j] != r[k])
  }

  /** Each month is followed by the next one and no month comes twice. */
  predicate IsMonthRun(r: seq<Month>) {
    (forall k :: 0 <= k < |r| - 1 ==> r[k + 1].Value() == r[k].Value() % 12 + 1)
    && (forall j, k :: 0 <= j < k < |r| ==> r[j] != r[k])
  }

  /** Counting round the week: one step on goes to the next day, and
      fewer than seven steps never come back. */
  lemma WeekArithmetic(x: int, j: int, k: int)
    ensures (x + 1) % 7 == (x % 7 + 1) % 7
    ensures 0 <= j < k < 7 ==> (x + j) % 7 != (x + k) % 7
  {
    var q1, q2 := (x + j) / 7, (x + k) / 7;
    assert (x + k) % 7 - (x + j) % 7 == (k - j) - (q2 - q1) * 7;
  }

  /** Counting round the year: one step on goes to the next month, and
      fewer than twelve steps never come back. */
  lemma YearArithmetic(x: int, j: int, k: int)
    ensures (x + 1) % 12 == (x % 12 + 1) % 12
    ensures 0 <= j < k < 12 ==> (x + j) % 12 != (x + k) % 12
  {
    var q1, q2 := (x + j) / 12, (x + k) / 12;
    assert (x + k) % 12 - (x + j) % 12 == (k - j) - (q2 - q1) * 12;
  }

  /** One place of a cycle on, the next day follows. */
  lemma DayCycleStep(first: nat, count: nat, k: nat)
    requires k + 1 < count
    ensures DayCycle(first, count)[k + 1].Value() == DayCycle(first, count)[k].Value() % 7 + 1
  {
    DayCycleAt(first, count, k);
    DayCycleAt(first, count, k + 1);
    WeekArithmetic(first + k, 0, 1);
  }

  /** Two places of a cycle of at most a week hold different days. */
  lemma DayCycleDistinct(first: nat, count: nat, j: nat, k: nat)
    requires count <= 7 && j < k < count
    ensures DayCycle(first, count)[j] != DayCycle(first, count)[k]
  {
    DayCycleAt(first, count, j);
    DayCycleAt(first, count, k);
    WeekArithmetic(first, j, k);
  }

  /** One place of a cycle on, the next month follows. */
  lemma MonthCycleStep(first: nat, count: nat, k: nat)
    requires k + 1 < count
    ensures MonthCycle(first, count)[k + 1].Value() == MonthCycle(first, count)[k].Value() % 12 + 1
  {
    MonthCycleAt(first, count, k);
    MonthCycleAt(first, count, k + 1);
    YearArithmetic(first + k, 0, 1);
  }

  /** Two places of a cycle of at most a year hold different months. */
  lemma MonthCycleDistinct(first: nat, count: nat, j: nat, k: nat)
    requires count <= 12 && j < k < count
    ensures MonthCycle(first, count)[j] != MonthCycle(first, count)[k]
  {
    MonthCycleAt(first, count, j);
    MonthCycleAt(first, count, k);
    YearArithmetic(first, j, k);
  }

  /** From index `s - 1` up to `e - 1`, or `e + 6` when that is below the
      start, there are `(e - s) % 7 + 1` positions. */
  lemma WeekRangeLength(s: int, e: int, count: int)
    requires 1 <= s <= 7 && 1 <= e <= 7 && count == (e - s) % 7 + 1
    ensures 1 <= count <= 7
    ensures (if s - 1 > e - 1 then e + 6 else e - 1) + 1 - (s - 1) == count
    ensures (s - 1 + 0) % 7 + 1 == s && (s - 1 + (count - 1)) % 7 + 1 == e
  {
  }

  /** From index `s - 1` up to `e - 1`, or `e + 11` when that is below the
      start, there are `(e - s) % 12 + 1` positions. */
  lemma YearRangeLength(s: int, e: int, count: int)
    requires 1 <= s <= 12 && 1 <= e <= 12 && count == (e - s) % 12 + 1
    ensures 1 <= count <= 12
    ensures (if s - 1 > e - 1 then e + 11 else e - 1) + 1 - (s - 1) == count
    ensures (s - 1 + 0) % 12 + 1 == s && (s - 1 + (count - 1)) % 12 + 1 == e
  {
  }

  /** A cycle of at most a week steps from each day to the next and repeats
      no day. */
  lemma DayCycleIsRun(first: nat, count: nat)
    requires count <= 7
    ensures IsDayOfWeekRun(DayCycle(first, count))
  {
    var r := DayCycle(first, count);
    forall k | 0 <= k < count - 1
      ensures r[k + 1].Value() == r[k].Value() % 7 + 1
    {
      DayCycleStep(first, count, k);
    }
    forall j, k | 0 <= j < k < count
      ensures r[j] != r[k]
    {
      DayCycleDistinct(first, count, j, k);
    }
  }

  /** A cycle of at most a year steps from each month to the next and
      repeats no month. */
  lemma MonthCycleIsRun(first: nat, count: nat)
    requires count <= 12
    ensures IsMonthRun(MonthCycle(first, count))
  {
    var r := MonthCycle(first, count);
    forall k | 0 <= k < count - 1
      ensures r[k + 1].Value() == r[k].Value() % 12 + 1
    {
      MonthCycleStep(first, count, k);
    }
    forall j, k | 0 <= j < k < count
      ensures r[j] != r[k]
    {
      MonthCycleDistinct(first, count, j, k);
    }
  }

  /** A shorter cycle from the same month is a prefix of a longer one. */
  lemma {:induction false} MonthCyclePrefix(first: nat, short: nat, long: nat)
    requires short <= long
    ensures MonthCycle(first, short) == MonthCycle(first, long)[..short]
    decreases long
  {
    if short < long {
      MonthCyclePrefix(first, short, long - 1);
      assert MonthCycle(first, long)[..long - 1] == MonthCycle(first, long - 1);
    }
  }

  /** The days from `start` round to `end` begin at `start` and end at
      `end`. */
  lemma DayRangeEnds(start: DayOfWeek, end: DayOfWeek)
    ensures var r := DayCycle(start.Value() - 1, (end.Value() - start.Value()) % 7 + 1);
            1 <= |r| <= 7 && r[0] == start && r[|r| - 1] == end
  {
    var s, e := start.Value(), end.Value();
    var count := (e - s) % 7 + 1;
    WeekRangeLength(s, e, count);
    var r := DayCycle(s - 1, count);
    assert r[0] == start by { DayCycleAt(s - 1, count, 0); }
    assert r[count - 1] == end by { DayCycleAt(s - 1, count, count - 1); }
  }

  /** The months from `start` round to `end` begin at `start` and end at
      `end`. */
  lemma MonthRangeEnds(start: Month, end: Month)
    ensures var r := MonthCycle(start.Value() - 1, (end.Value() - start.Value()) % 12 + 1);
            1 <= |r| <= 12 && r[0] == start && r[|r| - 1] == end
  {
    var s, e := start.Value(), end.Value();
    var count := (e - s) % 12 + 1;
    YearRangeLength(s, e, count);
    var r := MonthCycle(s - 1, count);
    assert r[0] == start by { MonthCycleAt(s - 1, count, 0); }
    assert r[count - 1] == end by { MonthCycleAt(s - 1, count, count - 1); }
  }

  /** `to(DayOfWeek start, DayOfWeek end)`: the days from `start` to `end`
      inclusive, going round the week once at most. */
  method DaysTo(start: DayOfWeek, end: DayOfWeek) returns (days: seq<DayOfWeek>)
    ensures days == DayCycle(start.Value() - 1, (end.Value() - start.Value()) % 7 + 1)
  {
    days := [];
    var max := end.Value() - 1;
    var i := start.Value() - 1;
    if i > max {
      max := max + 7;
    }
    ghost var first := i;
    ghost var count := (end.Value() - start.Value()) % 7 + 1;
    WeekRangeLength(start.Value(), end.Value(), count);
    while i <= max
      invariant first <= i <= max + 1
      invariant |days| == i - first
      invariant forall k :: 0 <= k < |days| ==> days[k].Value() == (first + k) % 7 + 1
    {
      days := days + [DayOfWeekOf(i % 7 + 1)];
      i := i + 1;
    }
    DayCycleByElements(first, days);
  }

  /** The number of months `to(Month start, Month end)` lists as written:
      when `end` comes before `start` the range is widened by 7 where a year
      has 12 months. */
  function MonthsToLengthAsWritten(start: Month, end: Month): (n: nat)
    ensures start.Value() <= end.Value() ==> n == end.Value() - start.Value() + 1
    ensures start.Value() > end.Value() ==> n == Max(0, end.Value() - start.Value() + 8)
  {
    var max := if start.Value() > end.Value() then end.Value() + 6 else end.Value() - 1;
    if start.Value() - 1 <= max then max - (start.Value() - 1) + 1 else 0
  }

  /** `to(Month start, Month end)` as written: widening by 7 loses the last
      five months of a range that runs over the new year. */
  method MonthsTo(start: Month, end: Month) returns (months: seq<Month>)
    ensures months == MonthCycle(start.Value() - 1, MonthsToLengthAsWritten(start, end))
  {
    months := [];
    var max := end.Value() - 1;
    var i := start.Value() - 1;
    if i > max {
      max := max + 7;
    }
    ghost var first := i;
    while i <= max
      invariant first <= i <= Max(first, max + 1)
      invariant |months| == i - first
      invariant forall k :: 0 <= k < |months| ==> months[k].Value() == (first + k) % 12 + 1
    {
      months := months + [MonthOf(i % 12 + 1)];
      i := i + 1;
    }
    MonthCycleByElements(first, months);
  }

  /** `to(Month start, Month end)` with the range widened by a whole year:
      the months from `start` to `end` inclusive, going round the year once
      at most. */
  method MonthsToCorrected(start: Month, end: Month) returns (months: seq<Month>)
    ensures months == MonthCycle(start.Value() - 1, (end.Value() - start.Value()) % 12 + 1)
  {
    months := [];
    var max := end.Value() - 1;
    var i := start.Value() - 1;
    if i > max {
      max := max + 12;
    }
    ghost var first := i;
    ghost var count := (end.Value() - start.Value()) % 12 + 1;
    YearRangeLength(start.Value(), end.Value(), count);
    while i <= max
      invariant first <= i <= max + 1
      invariant |months| == i - first
      invariant forall k :: 0 <= k < |months| ==> months[k].Value() == (first + k) % 12 + 1
    {
      months := months + [MonthOf(i % 12 + 1)];
      i := i + 1;
    }
    MonthCycleByElements(first, months);
  }

  /** The months listed as written are the first ones of the intended
      range: all of them when `start` is not after `end`; otherwise the last
      five are missing, so a range of five months or fewer comes out
      empty. */
  lemma MonthsToAsWrittenIsPrefix(start: Month, end: Month)
    ensures var written := MonthsToLengthAsWritten(start, end);
            var intended := (end.Value() - start.Value()) % 12 + 1;
            written <= intended
            && MonthCycle(start.Value() - 1, written) == MonthCycle(start.Value() - 1, intended)[..written]
            && (written == intended <==> start.Value() <= end.Value())
            && (start.Value() > end.Value() ==> written == Max(0, intended - 5))
  {
    var s, e := start.Value(), end.Value();
    var written := MonthsToLengthAsWritten(start, end);
    var intended := (e - s) % 12 + 1;
    WrittenMonthCount(s, e, written, intended);
    MonthCyclePrefix(s - 1, written, intended);
  }

  /** The counts behind `MonthsToAsWrittenIsPrefix`, on month numbers. */
  lemma WrittenMonthCount(s: int, e: int, written: int, intended: int)
    requires 1 <= s <= 12 && 1 <= e <= 12
    requires written == if s <= e then e - s + 1 else Max(0, e - s + 8)
    requires intended == (e - s) % 12 + 1
    ensures written <= intended
    ensures written == intended <==> s <= e
    ensures s > e ==> written == Max(0, intended - 5)
  {
    if s > e {
      assert (e - s) % 12 == e - s + 12;
    }
  }

  /** From November to February the source lists no month at all, where
      November, December, January and February are meant. */
  lemma MonthsToAsWrittenNovemberToFebruary()
    ensures MonthsToLengthAsWritten(November, February) == 0
    ensures MonthCycle(November.Value() - 1, (February.Value() - November.Value()) % 12 + 1)
            == [November, December, January, February]
  {
    var r := MonthCycle(10, 4);
    assert (February.Value() - November.Value()) % 12 + 1 == 4;
    MonthCycleAt(10, 4, 0);
    MonthCycleAt(10, 4, 1);
    MonthCycleAt(10, 4, 2);
    MonthCycleAt(10, 4, 3);
    assert r == [r[0], r[1], r[2], r[3]];
  }

  // ---------------------------------------------------------------------
  // Next day of the week

  /** How many days after `from` the next `to` comes (0 when they agree). */
  function DaysUntil(from: DayOfWeek, to: DayOfWeek): (n: int)
    ensures 0 <= n < 7
    ensures (from.Value() - 1 + n) % 7 + 1 == to.Value()
  {
    (to.Value() - from.Value()) % 7
  }

  /** `DaysUntil` days after an epoch day falls the requested day. */
  lemma DaysUntilReachesDay(date: int, day: DayOfWeek)
    ensures DayOfWeekOfEpochDay(date + DaysUntil(DayOfWeekOfEpochDay(date), day)) == day
  {
    var n := DaysUntil(DayOfWeekOfEpochDay(date), day);
    assert (date + n + 3) % 7 == ((date + 3) % 7 + n) % 7;
  }

  /** No other day of the coming week falls the requested day. */
  lemma OnlyDaysUntilReachesDay(date: int, k: int, day: DayOfWeek)
    requires 0 <= k < 7 && DayOfWeekOfEpochDay(date + k) == day
    ensures k == DaysUntil(DayOfWeekOfEpochDay(date), day)
  {
    var n := DaysUntil(DayOfWeekOfEpochDay(date), day);
    DaysUntilReachesDay(date, day);
    assert (date + 3 + k) % 7 == (date + 3 + n) % 7;
    WeekArithmetic(date + 3, k, n);
    WeekArithmetic(date + 3, n, k);
  }

  /** `next(d, day)`: steps a day at a time until the day of the week is
      `day`; the date-time itself when it already falls on `day`. */
  method Next(d: ZonedDateTime, day: DayOfWeek) returns (r: ZonedDateTime)
    ensures r == d.PlusDays(DaysUntil(d.DayOfWeek(), day))
    ensures r.DayOfWeek() == day && r.time == d.time && r.zone == d.zone
    ensures d.date <= r.date < d.date + 7
    ensures forall k :: d.date <= k < r.date ==> DayOfWeekOfEpochDay(k) != day
  {
    ghost var n := DaysUntil(d.DayOfWeek(), day);
    DaysUntilReachesDay(d.date, day);
    r := d;
    while r.DayOfWeek() != day
      invariant r == d.PlusDays(r.date - d.date)
      invariant 0 <= r.date - d.date <= n
      invariant forall k :: d.date <= k < r.date ==> DayOfWeekOfEpochDay(k) != day
      decreases n - (r.date - d.date)
    {
      r := r.PlusDays(1);
    }
    OnlyDaysUntilReachesDay(d.date, r.date - d.date, day);
  }

  // ---------------------------------------------------------------------
  // Period to duration

  /** `toDuration(Period)`: only the days of a period without positive
      months or years convert; negative months and years are ignored. */
  function ToDurationOfPeriod(p: Period): (r: Result<Duration>)
    ensures r.Ok? <==> p.months <= 0 && p.years <= 0
    ensures r.Err? ==> r.error == IllegalArgument
    ensures r.Ok? ==> r.value.millis == p.days * MILLIS_PER_DAY
  {
    if p.months > 0 then Err(IllegalArgument)
    else if p.years > 0 then Err(IllegalArgument)
    else Ok(DurationOfDays(p.days))
  }
}
