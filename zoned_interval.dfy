/** `ZonedInterval`: an immutable half-open interval `[start, end)` of
    instants. Its end is held in the zone of its start, and every relational
    operation reads only the epoch milliseconds of the two endpoints, so the
    model keeps those two `long`s and the zone. */
module ZonedIntervals {
  import opened Outcomes
  import opened Int64
  import opened Temporal

  function Max(a: int, b: int): int { if a < b then b else a }
  function Min(a: int, b: int): int { if a < b then a else b }

  datatype ZonedInterval = ZonedInterval(start: Long, end: Long, zone: ZoneId) {

    function GetStartMillis(): Long { start }

    function GetEndMillis(): Long { end }

    /** `getStart()`: the start instant read in the interval's zone. */
    function GetStart(): (t: ZonedDateTime)
      ensures t.zone == zone && t.ToEpochMilli() == start && t.IsMilliPrecise()
    {
      OfInstantToEpochMilli(start, zone);
      OfInstant(start, zone)
    }

    /** `getEnd()`: the end instant, also read in the interval's zone. */
    function GetEnd(): (t: ZonedDateTime)
      ensures t.zone == zone && t.ToEpochMilli() == end && t.IsMilliPrecise()
    {
      OfInstantToEpochMilli(end, zone);
      OfInstant(end, zone)
    }

    /** The relational operations give meaningful answers for intervals
        whose start is not after their end; nothing enforces it. */
    predicate IsOrdered() {
      start <= end
    }

    /** `contains(long millisInstant)`: start inclusive, end exclusive. An
        instant is contained exactly when the zero-length interval at it is,
        and a zero-length interval contains nothing. */
    predicate Contains(millisInstant: Long): (r: bool)
      ensures r <==> ContainsInterval(ZonedInterval(millisInstant, millisInstant, zone))
      ensures r ==> start < end
    {
      millisInstant >= GetStartMillis() && millisInstant < GetEndMillis()
    }

    /** `contains(ZonedDateTime)` and `contains(Instant)`: the millisecond of
        the instant. */
    predicate ContainsDateTime(instant: ZonedDateTime): (r: bool)
      requires IsLong(instant.ToEpochMilli())
      ensures r <==> ContainsInterval(ZonedInterval(instant.ToEpochMilli(), instant.ToEpochMilli(), instant.zone))
      ensures r ==> start < end
    {
      Contains(instant.ToEpochMilli())
    }

    /** `overlaps(other)`. For two non-empty intervals: the later of the two
        starts comes before the earlier of the two ends. A zero-length
        interval overlaps an interval that holds its instant strictly
        inside. */
    predicate Overlaps(other: ZonedInterval): (r: bool)
      ensures start < end && other.start < other.end ==> (r <==> Max(start, other.start) < Min(end, other.end))
      ensures start == end ==> (r <==> other.start < start < other.end)
    {
      var thisStart, thisEnd := GetStartMillis(), GetEndMillis();
      var otherStart, otherEnd := other.GetStartMillis(), other.GetEndMillis();
      thisStart < otherEnd && otherStart < thisEnd
    }

    /** `overlap(other)`: `null` (None) unless the intervals overlap, else
        the common part, in this interval's zone. */
    function Overlap(other: ZonedInterval): (r: Option<ZonedInterval>)
      ensures r.None? <==> !Overlaps(other)
      ensures r.Some? ==> r.value.zone == zone
      ensures r.Some? ==> r.value.start == Max(start, other.start) && r.value.end == Min(end, other.end)
      ensures r.Some? ==> forall t: Long :: r.value.Contains(t) <==> Contains(t) && other.Contains(t)
      ensures r.Some? && IsOrdered() && other.IsOrdered() ==> r.value.IsOrdered()
      ensures r.Some? && start < end && other.start < other.end ==>
                r.value.start < r.value.end && ContainsInterval(r.value) && other.ContainsInterval(r.value)
      ensures r.Some? && start < end ==> ContainsInterval(r.value)
      ensures r.Some? && other.start < other.end ==> other.ContainsInterval(r.value)
    {
      if !Overlaps(other) then None
      else
        var s := Max(GetStartMillis(), other.GetStartMillis());
        var e := Min(GetEndMillis(), other.GetEndMillis());
        Some(Of(s, e, zone))
    }

    /** `gap(other)`: the interval strictly between the two, in this
        interval's zone, or `null` (None) when there is none. */
    function Gap(other: ZonedInterval): (r: Option<ZonedInterval>)
      ensures r.None? <==> (start <= other.end && other.start <= end)
      ensures start > other.end ==> r == Some(ZonedInterval(other.end, start, zone))
      ensures start <= other.end && other.start > end ==> r == Some(ZonedInterval(end, other.start, zone))
      ensures r.Some? ==> r.value.start < r.value.end
      ensures r.Some? ==> r.value.Abuts(this) && r.value.Abuts(other)
      ensures r.Some? ==> forall t: Long :: r.value.Contains(t) ==> !Contains(t) && !other.Contains(t)
    {
      var otherStart, otherEnd := other.GetStartMillis(), other.GetEndMillis();
      var thisStart, thisEnd := GetStartMillis(), GetEndMillis();
      if thisStart > otherEnd then
        Some(Of(otherEnd, thisStart, zone))
      else if otherStart > thisEnd then
        Some(Of(thisEnd, otherStart, zone))
      else
        None
    }

    /** `abuts(other)`: one interval ends where the other starts; such
        intervals never overlap. */
    predicate Abuts(other: ZonedInterval): (r: bool)
      ensures r ==> !Overlaps(other)
    {
      other.GetEndMillis() == GetStartMillis() || GetEndMillis() == other.GetStartMillis()
    }

    /** `contains(ZonedInterval)`: only a non-empty interval contains
        anything, and what it contains is no longer than itself. */
    predicate ContainsInterval(other: ZonedInterval): (r: bool)
      ensures r ==> start < end
      ensures r ==> other.end as int - other.start <= end as int - start
    {
      var otherStart, otherEnd := other.GetStartMillis(), other.GetEndMillis();
      var thisStart, thisEnd := GetStartMillis(), GetEndMillis();
      thisStart <= otherStart && otherStart < thisEnd && otherEnd <= thisEnd
    }

    /** `toDurationMillis()` as written: `safeAdd(getEndMillis(),
        -getStartMillis())`, where the negation wraps at `Long.MIN_VALUE`. */
    function ToDurationMillisAsWritten(): (r: Result<Long>)
      ensures start != LONG_MIN ==> r == ToDurationMillis()
      ensures start == LONG_MIN ==> (r.Ok? <==> end >= 0)
      ensures start == LONG_MIN && r.Ok? ==> r.value == end as int + LONG_MIN
    {
      SafeAdd(GetEndMillis(), Negate(GetStartMillis()))
    }

    /** `toDurationMillis()` as intended: end minus start, or
        `ArithmeticException` when the difference does not fit a `long`. */
    function ToDurationMillis(): (r: Result<Long>)
      ensures r.Ok? <==> IsLong(end as int - start)
      ensures r.Ok? ==> r.value == end as int - start
      ensures r.Err? ==> r.error == ArithmeticOverflow
    {
      SafeSubtract(GetEndMillis(), GetStartMillis())
    }

    /** `toDuration()`: `Duration.ZERO` or `Duration.ofMillis` of the
        duration in milliseconds (both are the same value here). */
    function ToDuration(): (r: Result<Duration>)
      ensures r.Ok? <==> IsLong(end as int - start)
      ensures r.Ok? ==> r.value.millis == end as int - start
    {
      var durMillis :- ToDurationMillis();
      if durMillis == 0 then Ok(Duration(0)) else Ok(Duration(durMillis))
    }

    /** `toDuration()` as written, on `toDurationMillis()` as written. */
    function ToDurationAsWritten(): (r: Result<Duration>)
      ensures start != LONG_MIN ==> r == ToDuration()
      ensures start == LONG_MIN && end >= 0 ==> r == Ok(Duration(end as int + LONG_MIN))
    {
      var durMillis :- ToDurationMillisAsWritten();
      if durMillis == 0 then Ok(Duration(0)) else Ok(Duration(durMillis))
    }

    /** `withZone(zone)`: the same instants, read in another zone. */
    function WithZone(z: ZoneId): (r: ZonedInterval)
      ensures r.zone == z
      ensures r.GetStart().ToEpochMilli() == GetStart().ToEpochMilli()
      ensures r.GetEnd().ToEpochMilli() == GetEnd().ToEpochMilli()
      ensures zone == z ==> r == this
    {
      if zone == z then this
      else
        OfInstantToEpochMilli(start, z);
        OfInstantToEpochMilli(end, z);
        OfZoned(OfInstant(start, z), OfInstant(end, z))
    }

    /** `enlarge(Duration d)`: `d` earlier start, `d` later end. The model
        requires both moved endpoints to stay within `long` milliseconds. */
    function Enlarge(d: Duration): (r: ZonedInterval)
      requires IsLong(start as int - d.millis) && IsLong(end as int + d.millis)
      ensures r.zone == zone
      ensures r.start == start as int - d.millis && r.end == end as int + d.millis
    {
      OfZoned(GetStart().Minus(d), GetEnd().Plus(d))
    }
  }

  /** `ZonedInterval.of(long start, long end, ZoneId)`, and the `Instant`
      overload: both endpoints keep their millisecond. */
  function Of(start: Long, end: Long, zone: ZoneId): (i: ZonedInterval)
    ensures i.GetStartMillis() == start && i.GetEndMillis() == end && i.zone == zone
  {
    OfInstantToEpochMilli(start, zone);
    OfInstantToEpochMilli(end, zone);
    OfZoned(OfInstant(start, zone), OfInstant(end, zone))
  }

  /** `ZonedInterval.of(ZonedDateTime, ZonedDateTime)`, the private
      constructor: the zone is the start's, the end is converted into it
      keeping its instant. */
  function OfZoned(start: ZonedDateTime, end: ZonedDateTime): (i: ZonedInterval)
    requires IsLong(start.ToEpochMilli()) && IsLong(end.ToEpochMilli())
    ensures i.zone == start.zone
    ensures i.GetStartMillis() == start.ToEpochMilli() && i.GetEndMillis() == end.ToEpochMilli()
    ensures i.GetEnd().ToEpochMilli() == end.ToEpochMilli()
  {
    ZonedInterval(start.ToEpochMilli(), end.ToEpochMilli(), start.zone)
  }

  /** `ZonedInterval.of(LocalDate, LocalDate, ZoneId)`: from the start of
      the first day to the start of the second, in the zone. */
  function OfDates(startDay: int, endDay: int, zone: ZoneId): (i: ZonedInterval)
    requires IsLong(startDay * MILLIS_PER_DAY - zone.offsetSeconds * MILLIS_PER_SECOND)
    requires IsLong(endDay * MILLIS_PER_DAY - zone.offsetSeconds * MILLIS_PER_SECOND)
    ensures i.zone == zone
    ensures i.GetStart() == AtStartOfDay(startDay, zone) && i.GetEnd() == AtStartOfDay(endDay, zone)
    ensures i.end as int - i.start == (endDay - startDay) * MILLIS_PER_DAY
  {
    OfZonedKeepsEndpoints(AtStartOfDay(startDay, zone), AtStartOfDay(endDay, zone));
    OfZoned(AtStartOfDay(startDay, zone), AtStartOfDay(endDay, zone))
  }

  /** The constructor keeps a millisecond-precise start as it is, and keeps
      the end as it is when it is already in the start's zone. */
  lemma OfZonedKeepsEndpoints(start: ZonedDateTime, end: ZonedDateTime)
    requires IsLong(start.ToEpochMilli()) && IsLong(end.ToEpochMilli())
    requires start.IsMilliPrecise() && end.IsMilliPrecise()
    ensures OfZoned(start, end).GetStart() == start
    ensures end.zone == start.zone ==> OfZoned(start, end).GetEnd() == end
  {
    ToEpochMilliOfInstant(start);
    ToEpochMilliOfInstant(end);
  }

  // ---------------------------------------------------------------------
  // The interval algebra

  lemma OverlapsIsSymmetric(a: ZonedInterval, b: ZonedInterval)
    ensures a.Overlaps(b) <==> b.Overlaps(a)
  {
  }

  /** For two non-empty intervals, overlapping means sharing an instant. */
  lemma OverlapsIffCommonInstant(a: ZonedInterval, b: ZonedInterval)
    requires a.start < a.end && b.start < b.end
    ensures a.Overlaps(b) <==> exists t: Long :: a.Contains(t) && b.Contains(t)
  {
    if a.Overlaps(b) {
      var t := Max(a.start, b.start);
      assert a.Contains(t) && b.Contains(t);
    }
  }

  /** A zero-length interval `[p, p)` overlaps exactly the intervals that
      hold `p` strictly inside; in particular it does not overlap itself. */
  lemma ZeroLengthOverlaps(a: ZonedInterval, b: ZonedInterval)
    requires a.start == a.end
    ensures a.Overlaps(b) <==> b.start < a.start < b.end
    ensures !a.Overlaps(a)
  {
  }

  /** Abutting intervals never overlap, whatever their endpoints. */
  lemma AbutsExcludesOverlaps(a: ZonedInterval, b: ZonedInterval)
    ensures a.Abuts(b) ==> !a.Overlaps(b)
  {
  }

  /** When two ordered intervals are compared, exactly one of three states
      holds: they overlap, they abut, or there is a gap between them. */
  lemma ExactlyOneRelation(a: ZonedInterval, b: ZonedInterval)
    requires a.IsOrdered() && b.IsOrdered()
    ensures a.Overlaps(b) || a.Abuts(b) || a.Gap(b).Some?
    ensures !(a.Overlaps(b) && a.Abuts(b))
    ensures !(a.Overlaps(b) && a.Gap(b).Some?)
    ensures !(a.Abuts(b) && a.Gap(b).Some?)
  {
  }

  /** A zero-length interval contains no instant and no interval, not even
      itself, and abuts itself. */
  lemma ZeroLengthContainsNothing(a: ZonedInterval)
    requires a.start == a.end
    ensures forall t: Long :: !a.Contains(t)
    ensures forall b: ZonedInterval :: !a.ContainsInterval(b)
    ensures a.Abuts(a)
  {
  }

  /** For a non-empty interval `b`, `a.contains(b)` holds exactly when every
      instant of `b` is an instant of `a`. */
  lemma ContainsIntervalIffInstantsIncluded(a: ZonedInterval, b: ZonedInterval)
    requires b.start < b.end
    ensures a.ContainsInterval(b) <==> forall t: Long :: b.Contains(t) ==> a.Contains(t)
  {
    if forall t: Long :: b.Contains(t) ==> a.Contains(t) {
      assert b.Contains(b.start);
      assert b.Contains(b.end - 1);
    }
  }

  /** `contains(interval)` is reflexive exactly on non-empty intervals. */
  lemma ContainsIntervalReflexive(a: ZonedInterval)
    ensures a.ContainsInterval(a) <==> a.start < a.end
  {
  }

  /** Enlarging a non-empty interval by a non-negative duration gives an
      interval that contains it and is `2 d` longer. */
  lemma EnlargeContainsOriginal(i: ZonedInterval, d: Duration)
    requires d.millis >= 0 && i.start < i.end
    requires IsLong(i.start as int - d.millis) && IsLong(i.end as int + d.millis)
    ensures i.Enlarge(d).ContainsInterval(i)
    ensures i.Enlarge(d).end - i.Enlarge(d).start == i.end - i.start + 2 * d.millis
  {
  }

  /** Enlarging by `d` and then by `-d` gives the interval back. */
  lemma EnlargeThenShrink(i: ZonedInterval, d: Duration)
    requires IsLong(i.start as int - d.millis) && IsLong(i.end as int + d.millis)
    ensures i.Enlarge(d).Enlarge(Duration(-d.millis)) == i
  {
  }

  /** `withZone` moves no endpoint, so it changes no relation. */
  lemma WithZoneKeepsRelations(a: ZonedInterval, b: ZonedInterval, z: ZoneId)
    ensures a.WithZone(z).Overlaps(b) == a.Overlaps(b)
    ensures a.WithZone(z).Abuts(b) == a.Abuts(b)
    ensures a.WithZone(z).ContainsInterval(b) == a.ContainsInterval(b)
    ensures a.WithZone(z).ToDurationMillis() == a.ToDurationMillis()
  {
  }

  // ---------------------------------------------------------------------
  // toDurationMillis as written: `-getStartMillis()` wraps at Long.MIN_VALUE

  /** Away from `Long.MIN_VALUE` the written code computes the duration. */
  lemma ToDurationMillisAsWrittenAgrees(i: ZonedInterval)
    requires i.start != LONG_MIN
    ensures i.ToDurationMillisAsWritten() == i.ToDurationMillis()
    ensures i.ToDurationAsWritten() == i.ToDuration()
  {
  }

  /** At `Long.MIN_VALUE` it does not: from `MIN_VALUE` to 0 the duration
      2^63 does not fit a `long`, yet it returns `Long.MIN_VALUE`; from
      `MIN_VALUE` to -1 the duration `Long.MAX_VALUE` fits, yet it throws. */
  lemma ToDurationMillisAsWrittenAtMinValue(z: ZoneId)
    ensures Of(LONG_MIN, 0, z).ToDurationMillisAsWritten() == Ok(LONG_MIN)
    ensures Of(LONG_MIN, 0, z).ToDurationMillis() == Err(ArithmeticOverflow)
    ensures Of(LONG_MIN, -1, z).ToDurationMillisAsWritten() == Err(ArithmeticOverflow)
    ensures Of(LONG_MIN, -1, z).ToDurationMillis() == Ok(LONG_MAX)
    ensures Of(LONG_MIN, 0, z).ToDurationAsWritten() == Ok(Duration(LONG_MIN))
    ensures Of(LONG_MIN, 0, z).ToDuration().Err?
    ensures Of(LONG_MIN, -1, z).ToDurationAsWritten().Err?
    ensures Of(LONG_MIN, -1, z).ToDuration() == Ok(Duration(LONG_MAX))
  {
  }

  // ---------------------------------------------------------------------
  // The examples of the documentation, on one day in UTC

  const UTC: ZoneId := ZoneId("Z", 0)

  /** `[h1:m1 to h2:m2)` on 1970-01-01 UTC. */
  function Span(h1: int, m1: int, h2: int, m2: int): ZonedInterval
    requires 0 <= h1 < 24 && 0 <= m1 < 60 && 0 <= h2 < 24 && 0 <= m2 < 60
  {
    ZonedInterval((h1 * 60 + m1) * MILLIS_PER_MINUTE, (h2 * 60 + m2) * MILLIS_PER_MINUTE, UTC)
  }

  lemma OverlapsExamples()
    ensures !Span(9, 0, 10, 0).Overlaps(Span(8, 0, 8, 30))
    ensures !Span(9, 0, 10, 0).Overlaps(Span(8, 0, 9, 0))
    ensures Span(9, 0, 10, 0).Overlaps(Span(8, 0, 9, 30))
    ensures Span(9, 0, 10, 0).Overlaps(Span(8, 0, 10, 0))
    ensures Span(9, 0, 10, 0).Overlaps(Span(8, 0, 11, 0))
    ensures !Span(9, 0, 10, 0).Overlaps(Span(9, 0, 9, 0))
    ensures Span(9, 0, 10, 0).Overlaps(Span(9, 0, 9, 30))
    ensures Span(9, 0, 10, 0).Overlaps(Span(9, 0, 10, 0))
    ensures Span(9, 0, 10, 0).Overlaps(Span(9, 0, 11, 0))
    ensures Span(9, 0, 10, 0).Overlaps(Span(9, 30, 9, 30))
    ensures Span(9, 0, 10, 0).Overlaps(Span(9, 30, 10, 0))
    ensures Span(9, 0, 10, 0).Overlaps(Span(9, 30, 11, 0))
    ensures !Span(9, 0, 10, 0).Overlaps(Span(10, 0, 10, 0))
    ensures !Span(9, 0, 10, 0).Overlaps(Span(10, 0, 11, 0))
    ensures !Span(9, 0, 10, 0).Overlaps(Span(10, 30, 11, 0))
    ensures !Span(14, 0, 14, 0).Overlaps(Span(14, 0, 14, 0))
    ensures Span(14, 0, 14, 0).Overlaps(Span(13, 0, 15, 0))
  {
  }

  lemma AbutsExamples()
    ensures !Span(9, 0, 10, 0).Abuts(Span(8, 0, 8, 30))
    ensures Span(9, 0, 10, 0).Abuts(Span(8, 0, 9, 0))
    ensures !Span(9, 0, 10, 0).Abuts(Span(8, 0, 9, 1))
    ensures Span(9, 0, 10, 0).Abuts(Span(9, 0, 9, 0))
    ensures !Span(9, 0, 10, 0).Abuts(Span(9, 0, 9, 1))
    ensures Span(9, 0, 10, 0).Abuts(Span(10, 0, 10, 0))
    ensures Span(9, 0, 10, 0).Abuts(Span(10, 0, 10, 30))
    ensures !Span(9, 0, 10, 0).Abuts(Span(10, 30, 11, 0))
    ensures Span(14, 0, 14, 0).Abuts(Span(14, 0, 14, 0))
    ensures Span(14, 0, 14, 0).Abuts(Span(14, 0, 15, 0))
    ensures Span(14, 0, 14, 0).Abuts(Span(13, 0, 14, 0))
  {
  }

  lemma ContainsExamples()
    ensures !Span(9, 0, 10, 0).Contains(Span(8, 59, 8, 59).start)
    ensures Span(9, 0, 10, 0).Contains(Span(9, 0, 9, 0).start)
    ensures Span(9, 0, 10, 0).Contains(Span(9, 59, 9, 59).start)
    ensures !Span(9, 0, 10, 0).Contains(Span(10, 0, 10, 0).start)
    ensures !Span(9, 0, 10, 0).Contains(Span(10, 1, 10, 1).start)
    ensures !Span(14, 0, 14, 0).Contains(Span(14, 0, 14, 0).start)
    ensures Span(9, 0, 10, 0).ContainsInterval(Span(9, 0, 10, 0))
    ensures Span(9, 0, 10, 0).ContainsInterval(Span(9, 0, 9, 30))
    ensures Span(9, 0, 10, 0).ContainsInterval(Span(9, 30, 10, 0))
    ensures Span(9, 0, 10, 0).ContainsInterval(Span(9, 15, 9, 45))
    ensures Span(9, 0, 10, 0).ContainsInterval(Span(9, 0, 9, 0))
    ensures !Span(9, 0, 10, 0).ContainsInterval(Span(8, 59, 10, 0))
    ensures !Span(9, 0, 10, 0).ContainsInterval(Span(9, 0, 10, 1))
    ensures !Span(9, 0, 10, 0).ContainsInterval(Span(10, 0, 10, 0))
    ensures !Span(14, 0, 14, 0).ContainsInterval(Span(14, 0, 14, 0))
  {
  }
}
