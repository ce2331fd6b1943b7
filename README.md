# jsr310-extensions in Dafny

A model of the core of the `com.guestful.jsr310` library: the half-open time
interval `ZonedInterval`, the rounding, range and search helpers of
`Jsr310Extensions`, and the constants and name lookup of
`Jsr310StaticExtensions`.

The modules follow the library's files:

- `Outcomes` (outcomes.dfy): `Option`, and a `Result` that carries the Java
  exception an operation throws (`ArithmeticException`,
  `IllegalArgumentException`).
- `Int64` (int64.dfy): Java's `long`. It covers the range, two's-complement
  wrap-around, unary minus, and the overflow test of `safeAdd`.
- `Arithmetic` (arithmetic.dfy): facts about multiplication, division and
  remainder that the model's proofs need.
- `Temporal` (temporal.dfy): the `java.time` values the library reads.
  - A zone is a fixed offset from UTC.
  - A `ZonedDateTime` is an epoch day, a wall-clock time and a zone.
  - A `Duration` is a whole number of milliseconds.
  - `DayOfWeek` and `Month` are their `getValue()` numbers, with named
    constants and their `name()` strings.
- `ZonedIntervals` (zoned_interval.dfy): `ZonedInterval.java`. An interval
  is its two endpoints as epoch milliseconds (both `long`s) plus the zone of
  its start. Every relational operation of the source reads only those two
  numbers.
- `Extensions` (extensions.dfy): `Jsr310Extensions.java`.
  - The rounding functions and `upTo`/`upFrom` are functions.
  - The two range builders and `next` are methods with loops, proved
    against specification functions.
- `StaticExtensions` (static_extensions.dfy): `Jsr310StaticExtensions.java`.
  - The maximum date-time, the empty interval and the enum value lists are
    functions.
  - The two `fromName` lookups are loop methods, proved against a prefix
    search function.

Source paths below are relative to the repository root.

## Model

| member | source | states |
|---|---|---|
| Int64.SafeAdd | src/main/java/com/guestful/jsr310/ZonedInterval.java:343-351 | the sign test on the wrapped sum throws exactly when the mathematical sum leaves the `long` range, and otherwise returns that sum |
| Int64.Negate | src/main/java/com/guestful/jsr310/ZonedInterval.java:302 | `-x` on a `long` is exact except at `Long.MIN_VALUE`, which negates to itself |
| ZonedIntervals.ZonedInterval.GetStart | src/main/java/com/guestful/jsr310/ZonedInterval.java:47-57 | the start date-time is in the interval's zone, has whole milliseconds, and its instant is `getStartMillis()` |
| ZonedIntervals.ZonedInterval.GetEnd | src/main/java/com/guestful/jsr310/ZonedInterval.java:51-61 | the end date-time is in the interval's zone, has whole milliseconds, and its instant is `getEndMillis()` |
| ZonedIntervals.OfZoned | src/main/java/com/guestful/jsr310/ZonedInterval.java:37-41 | the constructor takes the start's zone and keeps both instants; the end read back in that zone has the end's instant |
| ZonedIntervals.OfZonedKeepsEndpoints | src/main/java/com/guestful/jsr310/ZonedInterval.java:37-41 | the constructor keeps a millisecond-precise start as it is, and keeps the end as it is when the end is already in the start's zone |
| ZonedIntervals.Of | src/main/java/com/guestful/jsr310/ZonedInterval.java:353-359 | `of(start, end, zone)` gives `getStartMillis() == start`, `getEndMillis() == end` and that zone |
| ZonedIntervals.OfDates | src/main/java/com/guestful/jsr310/ZonedInterval.java:361-363 | the interval runs from the start of the first day to the start of the second day in the zone, and lasts a whole number of days |
| ZonedIntervals.ZonedInterval.Overlaps | src/main/java/com/guestful/jsr310/ZonedInterval.java:123-129 | for two non-empty intervals, overlapping means the later start comes before the earlier end; a zero-length interval overlaps exactly the intervals holding its instant strictly inside |
| ZonedIntervals.ZonedInterval.Abuts | src/main/java/com/guestful/jsr310/ZonedInterval.java:205-207 | abutting intervals never overlap |
| ZonedIntervals.ZonedInterval.Contains | src/main/java/com/guestful/jsr310/ZonedInterval.java:247-251 | an instant is contained exactly when the zero-length interval at it is contained, and only a non-empty interval contains an instant |
| ZonedIntervals.ZonedInterval.ContainsDateTime | src/main/java/com/guestful/jsr310/ZonedInterval.java:229-235 | a date-time is contained exactly when the zero-length interval at its instant is contained, and only a non-empty interval contains one |
| ZonedIntervals.ZonedInterval.ContainsInterval | src/main/java/com/guestful/jsr310/ZonedInterval.java:285-291 | only a non-empty interval contains another, and the contained interval is no longer than the containing one |
| ZonedIntervals.ZonedInterval.Overlap | src/main/java/com/guestful/jsr310/ZonedInterval.java:75-80 | null exactly when the intervals do not overlap; otherwise `[max of starts, min of ends)` in this zone, holding exactly the instants both hold, and contained in each non-empty input |
| ZonedIntervals.OverlapsIsSymmetric | src/main/java/com/guestful/jsr310/ZonedInterval.java:123-129 | `a.overlaps(b)` exactly when `b.overlaps(a)` |
| ZonedIntervals.OverlapsIffCommonInstant | src/main/java/com/guestful/jsr310/ZonedInterval.java:82-87 | two non-empty intervals overlap exactly when some instant lies in both |
| ZonedIntervals.ZeroLengthOverlaps | src/main/java/com/guestful/jsr310/ZonedInterval.java:107-117 | a zero-length interval overlaps exactly the intervals holding its instant strictly inside, and never overlaps itself |
| ZonedIntervals.ZonedInterval.Gap | src/main/java/com/guestful/jsr310/ZonedInterval.java:155-167 | null exactly when neither interval lies strictly after the other; otherwise the interval between them in this zone, which is non-empty, abuts both and shares no instant with either |
| ZonedIntervals.AbutsExcludesOverlaps | src/main/java/com/guestful/jsr310/ZonedInterval.java:205-207 | abutting intervals never overlap, whatever their endpoints |
| ZonedIntervals.ExactlyOneRelation | src/main/java/com/guestful/jsr310/ZonedInterval.java:89-92 | for two intervals whose start is not after their end, exactly one of overlaps, abuts, or a gap holds |
| ZonedIntervals.ZeroLengthContainsNothing | src/main/java/com/guestful/jsr310/ZonedInterval.java:237-251 | a zero-length interval contains no instant and no interval, and it abuts itself |
| ZonedIntervals.ContainsIntervalIffInstantsIncluded | src/main/java/com/guestful/jsr310/ZonedInterval.java:285-291 | for a non-empty `b`, `a.contains(b)` exactly when every instant of `b` is an instant of `a` |
| ZonedIntervals.ContainsIntervalReflexive | src/main/java/com/guestful/jsr310/ZonedInterval.java:253-259 | an interval contains itself exactly when it is non-empty |
| ZonedIntervals.OverlapsExamples | src/main/java/com/guestful/jsr310/ZonedInterval.java:96-117 | the `overlaps` examples of the documentation, each with the documented answer |
| ZonedIntervals.AbutsExamples | src/main/java/com/guestful/jsr310/ZonedInterval.java:184-198 | the `abuts` examples of the documentation, each with the documented answer |
| ZonedIntervals.ContainsExamples | src/main/java/com/guestful/jsr310/ZonedInterval.java:217-279 | the examples of both `contains` forms, each with the documented answer |
| ZonedIntervals.ZonedInterval.ToDurationMillis | src/main/java/com/guestful/jsr310/ZonedInterval.java:293-303 | the duration is end minus start, and `ArithmeticException` is thrown exactly when that does not fit a `long` |
| ZonedIntervals.ZonedInterval.ToDurationMillisAsWritten | src/main/java/com/guestful/jsr310/ZonedInterval.java:301-303 | `safeAdd(end, -start)` as written: end minus start when the start is not `Long.MIN_VALUE`; at that start it succeeds exactly when the end is not negative, and then gives `end + Long.MIN_VALUE` instead of the duration |
| ZonedIntervals.ZonedInterval.ToDurationAsWritten | src/main/java/com/guestful/jsr310/ZonedInterval.java:313-320 | `toDuration()` on the written `toDurationMillis()`: the same as the corrected duration away from a start of `Long.MIN_VALUE`, and `Long.MIN_VALUE + end` milliseconds from that start to a non-negative end |
| ZonedIntervals.ToDurationMillisAsWrittenAgrees | src/main/java/com/guestful/jsr310/ZonedInterval.java:301-303 | away from a start of `Long.MIN_VALUE`, `safeAdd(end, -start)` computes that duration, and `toDuration()` as written agrees with the corrected one |
| ZonedIntervals.ToDurationMillisAsWrittenAtMinValue | src/main/java/com/guestful/jsr310/ZonedInterval.java:301-303 | at a start of `Long.MIN_VALUE` the written code returns a wrong value for one input and throws on another input whose duration fits; `toDuration()` as written gives `Long.MIN_VALUE` milliseconds and throws on those inputs, where the corrected one throws and gives `Long.MAX_VALUE` milliseconds |
| ZonedIntervals.ZonedInterval.ToDuration | src/main/java/com/guestful/jsr310/ZonedInterval.java:313-320 | on the corrected `toDurationMillis()`: the duration is end minus start, and the operation fails exactly when that does not fit a `long` |
| ZonedIntervals.ZonedInterval.WithZone | src/main/java/com/guestful/jsr310/ZonedInterval.java:322-325 | the result has the new zone and the same start and end instants; it is the interval itself when the zone is the same |
| ZonedIntervals.WithZoneKeepsRelations | src/main/java/com/guestful/jsr310/ZonedInterval.java:322-325 | changing the zone changes none of `overlaps`, `abuts`, `contains` or the duration |
| ZonedIntervals.ZonedInterval.Enlarge | src/main/java/com/guestful/jsr310/ZonedInterval.java:331-333 | the start moves `d` earlier, the end moves `d` later, and the zone is kept |
| ZonedIntervals.EnlargeContainsOriginal | src/main/java/com/guestful/jsr310/ZonedInterval.java:331-333 | enlarging a non-empty interval by a non-negative duration contains the original and is `2 d` longer |
| ZonedIntervals.EnlargeThenShrink | src/main/java/com/guestful/jsr310/ZonedInterval.java:331-333 | enlarging by `d` and then by `-d` gives the interval back |
| Extensions.FloorIsMinusRemainder | src/main/java/com/guestful/jsr310/Jsr310Extensions.java:304 | `mins - mins % step` is the largest multiple of `step` not above `mins` |
| Extensions.CeilIsPlusComplement | src/main/java/com/guestful/jsr310/Jsr310Extensions.java:312 | for an unaligned minute, `mins + step - mins % step` is the smallest multiple of `step` not below it |
| Extensions.NextMultipleWithinHour | src/main/java/com/guestful/jsr310/Jsr310Extensions.java:311-313 | when `step` divides an hour, rounding up an unaligned minute reaches at most 60, so the carry is at most one hour |
| Extensions.RoundDownMinutesLocal | src/main/java/com/guestful/jsr310/Jsr310Extensions.java:316-322 | throws exactly when the minute is unaligned and `step` does not divide 60; otherwise keeps the hour, clears seconds and nanos, and floors the minute to a multiple of `step` |
| Extensions.RoundUpMinutesLocal | src/main/java/com/guestful/jsr310/Jsr310Extensions.java:324-331 | throws on the same condition; otherwise clears seconds and nanos and gives an aligned minute |
| Extensions.RoundingWithInvalidStep | src/main/java/com/guestful/jsr310/Jsr310Extensions.java:316-331 | with a step that does not divide 60, an aligned minute is returned truncated without any check, and any other minute throws |
| Extensions.RoundDownMinutesLocalIsFloor | src/main/java/com/guestful/jsr310/Jsr310Extensions.java:316-322 | with a step that divides an hour, the minute of the day is floored to a multiple of `step` |
| Extensions.RoundUpMinutesLocalIsCeil | src/main/java/com/guestful/jsr310/Jsr310Extensions.java:324-331 | with a step that divides an hour, the minute of the day is rounded up to a multiple of `step`, wrapping from 23:xx to 00:00 |
| Extensions.RoundDownMinutes | src/main/java/com/guestful/jsr310/Jsr310Extensions.java:299-305 | the zoned form throws on the same condition, and otherwise keeps the date and zone and rounds the time as the `LocalTime` form does |
| Extensions.RoundUpMinutes | src/main/java/com/guestful/jsr310/Jsr310Extensions.java:307-314 | the zoned form throws on the same condition, and otherwise keeps the zone, rounds the time as the `LocalTime` form does, and moves forward less than an hour on the local time-line |
| Extensions.RoundDownMinutesIsFloor | src/main/java/com/guestful/jsr310/Jsr310Extensions.java:299-305 | with a step that divides an hour, the epoch minute is floored to a multiple of `step` |
| Extensions.RoundUpMinutesIsCeil | src/main/java/com/guestful/jsr310/Jsr310Extensions.java:307-314 | with a step that divides an hour, the epoch minute is rounded up to a multiple of `step`, rolling into the next day |
| Extensions.RoundUpMinutesMovesLittle | src/main/java/com/guestful/jsr310/Jsr310Extensions.java:307-314 | the rounded instant is less than a minute before and less than an hour after the original |
| Extensions.RoundUpMinutesInterval | src/main/java/com/guestful/jsr310/Jsr310Extensions.java:293-297 | fails exactly when rounding either end fails; otherwise keeps the zone, and its ends are the rounded ends |
| Extensions.RoundUpMinutesIntervalShortcut | src/main/java/com/guestful/jsr310/Jsr310Extensions.java:296 | returning the interval itself changes no value; the result equals the original exactly when neither end moved |
| Extensions.RoundUpMinutesIntervalIsCeil | src/main/java/com/guestful/jsr310/Jsr310Extensions.java:293-297 | with a step that divides an hour, both ends are rounded up to a multiple of `step` minutes |
| Extensions.Negative | src/main/java/com/guestful/jsr310/Jsr310Extensions.java:64-66 | throws exactly when `toNanos()` overflows; otherwise the duration negated |
| Extensions.NegativeIsInvolution | src/main/java/com/guestful/jsr310/Jsr310Extensions.java:64-66 | negating twice gives the duration back |
| Extensions.UpTo | src/main/java/com/guestful/jsr310/Jsr310Extensions.java:284-287 | `[from, from+d)` for `d >= 0` and `[from+d, from)` otherwise, always ordered and `abs(d)` long in `from`'s zone; throws when `toNanos()` overflows |
| Extensions.UpFrom | src/main/java/com/guestful/jsr310/Jsr310Extensions.java:276-278 | the interval that ends at `from` for `d >= 0` and starts there otherwise, ordered and `abs(d)` long |
| Extensions.UpFromAbutsUpTo | src/main/java/com/guestful/jsr310/Jsr310Extensions.java:276-287 | for a positive `d`, `upFrom(from, d)` and `upTo(from, d)` abut at `from` and do not overlap |
| Extensions.DaysTo | src/main/java/com/guestful/jsr310/Jsr310Extensions.java:120-129 | the loop lists the `(end - start) mod 7 + 1` days that follow one another from `start` |
| Extensions.DayRangeEnds | src/main/java/com/guestful/jsr310/Jsr310Extensions.java:120-129 | the list holds 1 to 7 days, begins with `start` and ends with `end` |
| Extensions.DayCycleIsRun | src/main/java/com/guestful/jsr310/Jsr310Extensions.java:125-127 | each listed day is followed by the next day of the week, and no day comes twice |
| Extensions.MonthsToLengthAsWritten | src/main/java/com/guestful/jsr310/Jsr310Extensions.java:133-136 | the written loop runs `end - start + 1` times when `start <= end`, and `max(0, end - start + 8)` times otherwise |
| Extensions.MonthsTo | src/main/java/com/guestful/jsr310/Jsr310Extensions.java:131-140 | the loop as written lists that many consecutive months from `start` |
| Extensions.MonthsToAsWrittenIsPrefix | src/main/java/com/guestful/jsr310/Jsr310Extensions.java:131-140 | the written list is a prefix of the intended one; it is the whole of it exactly when `start <= end`; otherwise the last five months are missing, so a range of five months or fewer comes out empty |
| Extensions.MonthsToAsWrittenNovemberToFebruary | src/main/java/com/guestful/jsr310/Jsr310Extensions.java:131-140 | from November to February the written code lists no month, where November to February are meant |
| Extensions.MonthsToCorrected | src/main/java/com/guestful/jsr310/Jsr310Extensions.java:131-140 | widened by 12, the loop lists the `(end - start) mod 12 + 1` months that follow one another from `start` |
| Extensions.MonthRangeEnds | src/main/java/com/guestful/jsr310/Jsr310Extensions.java:131-140 | the corrected list holds 1 to 12 months, begins with `start` and ends with `end` |
| Extensions.MonthCycleIsRun | src/main/java/com/guestful/jsr310/Jsr310Extensions.java:136-138 | each listed month is followed by the next month, and no month comes twice |
| Extensions.DaysUntil | src/main/java/com/guestful/jsr310/Jsr310Extensions.java:213-218 | the number of days from one day of the week to the next occurrence of another is below 7, and counting that far on gives that day |
| Extensions.DaysUntilReachesDay | src/main/java/com/guestful/jsr310/Jsr310Extensions.java:213-218 | that many days after a date falls the requested day |
| Extensions.OnlyDaysUntilReachesDay | src/main/java/com/guestful/jsr310/Jsr310Extensions.java:213-218 | no other day of the coming week falls the requested day |
| Extensions.Next | src/main/java/com/guestful/jsr310/Jsr310Extensions.java:213-218 | returns the first date-time from `d` on, at most 6 days later, that falls on `day`, with the same time and zone; this is `d` itself when it already falls on `day` |
| Extensions.ToDurationOfPeriod | src/main/java/com/guestful/jsr310/Jsr310Extensions.java:369-373 | throws exactly when months or years are positive, so negative ones are ignored; otherwise gives exactly `days` days |
| StaticExtensions.MaxZonedDateTime | src/main/java/com/guestful/jsr310/Jsr310StaticExtensions.java:28-29 | 9999-12-31T23:59:59+18:00 is the instant 253402235999000 ms, at offset +18:00, a Friday |
| StaticExtensions.EmptyZonedInterval | src/main/java/com/guestful/jsr310/Jsr310StaticExtensions.java:30 | the empty interval starts and ends at 253402235999000 ms in zone +18:00 |
| StaticExtensions.EmptyZonedIntervalIsEmpty | src/main/java/com/guestful/jsr310/Jsr310StaticExtensions.java:30 | `EMPTY_ZonedInterval`, which `ZonedInterval.EMPTY` copies when `ZonedInterval` is initialised first, lasts zero milliseconds, contains no instant, overlaps only the intervals running across its instant, and abuts itself |
| StaticExtensions.AllDaysOfWeek | src/main/java/com/guestful/jsr310/Jsr310StaticExtensions.java:42-44 | all 7 days, Monday first, each at the position of its number |
| StaticExtensions.AllMonths | src/main/java/com/guestful/jsr310/Jsr310StaticExtensions.java:46-48 | all 12 months, January first, each at the position of its number |
| StaticExtensions.DayOfWeekNamed | src/main/java/com/guestful/jsr310/Jsr310StaticExtensions.java:59-66 | throws exactly when no day's name starts with `name`; otherwise gives a day whose name does, and no earlier day's name does |
| StaticExtensions.MonthNamed | src/main/java/com/guestful/jsr310/Jsr310StaticExtensions.java:50-57 | throws exactly when no month's name starts with `name`; otherwise gives a month whose name does, and no earlier month's name does |
| StaticExtensions.DayOfWeekNamedIs | src/main/java/com/guestful/jsr310/Jsr310StaticExtensions.java:59-66 | the first day in declaration order whose name starts with `name` is the answer |
| StaticExtensions.MonthNamedIs | src/main/java/com/guestful/jsr310/Jsr310StaticExtensions.java:50-57 | the first month in declaration order whose name starts with `name` is the answer |
| StaticExtensions.DayOfWeekFromName | src/main/java/com/guestful/jsr310/Jsr310StaticExtensions.java:59-66 | the loop over `DayOfWeek.values()` with early return and a throw at the end gives that answer |
| StaticExtensions.MonthFromName | src/main/java/com/guestful/jsr310/Jsr310StaticExtensions.java:50-57 | the loop over `Month.values()` with early return and a throw at the end gives that answer |
| StaticExtensions.DayOfWeekNamedTIsTuesday | src/main/java/com/guestful/jsr310/Jsr310StaticExtensions.java:60-62 | "T" gives TUESDAY, not THURSDAY |
| StaticExtensions.DayOfWeekNamedSIsSaturday | src/main/java/com/guestful/jsr310/Jsr310StaticExtensions.java:60-62 | "S" gives SATURDAY, not SUNDAY |
| StaticExtensions.DayOfWeekNamedIsCaseSensitive | src/main/java/com/guestful/jsr310/Jsr310StaticExtensions.java:61-65 | the match is case-sensitive: "mon" names no day, so it throws |
| StaticExtensions.MonthNamedExamples | src/main/java/com/guestful/jsr310/Jsr310StaticExtensions.java:51-53 | "JU" gives JUNE, and the empty name gives JANUARY |
| StaticExtensions.DayOfWeekNamesPrefixFree | src/main/java/com/guestful/jsr310/Jsr310StaticExtensions.java:60-62 | no day's name starts with another day's name |
| StaticExtensions.DayOfWeekNamedOwnName | src/main/java/com/guestful/jsr310/Jsr310StaticExtensions.java:59-66 | looking a day up by its full name finds that day |
| StaticExtensions.MonthNamesPrefixFree | src/main/java/com/guestful/jsr310/Jsr310StaticExtensions.java:51-53 | no month's name starts with another month's name |
| StaticExtensions.MonthNamedOwnName | src/main/java/com/guestful/jsr310/Jsr310StaticExtensions.java:50-57 | looking a month up by its full name finds that month |

## Left out

- Time zones are fixed offsets from UTC. Region zones, daylight saving and the zone database are not modelled. `withZoneSameInstant` is therefore an exact shift of the wall clock.
- A `ZonedInterval` holds its endpoints as epoch milliseconds. A start or end carrying sub-millisecond nanos is not represented. `getStart()`/`getEnd()` give the endpoint rebuilt from its millisecond, which equals the stored one whenever it was millisecond-precise.
- `Duration` is a whole number of milliseconds, so sub-millisecond amounts in `enlarge(Duration)`, `upTo`, `upFrom` and `negative` are not represented.
- ZonedIntervals.OfZoned, ZonedIntervals.OfDates, ZonedIntervals.ZonedInterval.Enlarge, ZonedIntervals.ZonedInterval.ContainsDateTime, Extensions.UpTo, Extensions.UpFrom and Extensions.RoundUpMinutesInterval require the instants they compute or read to fit a `long` of milliseconds. Extensions.RoundUpMinutesInterval asks for a margin: both ends must lie at least a minute above `Long.MIN_VALUE` and at least an hour below `Long.MAX_VALUE`, so that any rounded end still fits. An interval with an end inside that margin is excluded, even one whose end is already aligned and would round to itself. Java throws there in one of two ways. When `plus`/`minus` would leave `ZonedDateTime`'s range of years -999,999,999 to 999,999,999, they throw `DateTimeException` at once (ZonedInterval.java:332, Jsr310Extensions.java:286). Inside that range, `toEpochMilli()` throws `ArithmeticException` when the instant is read (ZonedInterval.java:56, 60, 234). Neither error path is modelled.
- Extensions.UpTo and Extensions.UpFrom ask for the long range only when `toNanos()` succeeds. When it throws (Jsr310Extensions.java:285 for `upTo`, and inside `negative` at Jsr310Extensions.java:65 for `upFrom`), they return `ArithmeticException` before any instant is computed.
- StaticExtensions.EmptyZonedIntervalIsEmpty describes `EMPTY_ZonedInterval`. `ZonedInterval.EMPTY` (ZonedInterval.java:26) reads that field while `ZonedInterval` is initialised, and `EMPTY_ZonedInterval` (Jsr310StaticExtensions.java:30) calls `ZonedInterval.of`. When `Jsr310StaticExtensions` is initialised first, `ZonedInterval`'s initialiser runs inside it and reads the field while it is still null, so `ZonedInterval.EMPTY` stays null. Two threads that first touch the two classes at once can deadlock. Class initialisation order is not modelled.
- A null argument is not modelled, and neither is the clock. The documentation of `overlaps`, `gap`, `abuts` and both `contains` forms (ZonedInterval.java:120, 151, 201, 226, 282) says null means "now", but the code dereferences the argument and throws `NullPointerException`.
- Extensions.RoundUpMinutes and Extensions.Next: the epoch day of a `ZonedDateTime` is unbounded in the model. At the last representable day, Java's `plusHours(1)` (Jsr310Extensions.java:313) and `plusDays(1)` (Jsr310Extensions.java:215) throw `DateTimeException`, where the model goes on to the next day.
- ZonedIntervals.ZonedInterval.ToDuration is built on the corrected `toDurationMillis()`. At a start of `Long.MIN_VALUE` it differs from the source, as the first row of "Findings" shows. ZonedIntervals.ZonedInterval.ToDurationAsWritten is the source's behaviour, and ZonedIntervals.ToDurationMillisAsWrittenAgrees shows the two agree at every other start.
- ZonedIntervals.ZonedInterval.Overlap: the containment of the result in an input is stated for a non-empty input only. A zero-length input contains nothing, so it does not contain the overlap, although the other, non-empty input does.
- Extensions.RoundUpMinutesInterval: the source compares the rounded ends with the originals by reference (`==`), and would then return the same object. `withSecond(0).withNano(0)` at Jsr310Extensions.java:309 builds a new `ZonedDateTime` each time, so in practice that shortcut is never taken and a new interval comes back. The model compares values instead. Extensions.RoundUpMinutesIntervalShortcut shows that the returned value is the same either way. Object identity is not modelled.
- Extensions.RoundDownMinutes, Extensions.RoundUpMinutes and the `LocalTime` forms require `step >= 1`, which leaves out zero and negative steps. With `step == 0` Java throws from `%`. With a negative step, Java's `%` takes the dividend's sign. An aligned minute is still returned truncated, and a step whose magnitude does not divide 60 still throws `IllegalArgumentException`. Otherwise `roundDownMinutes` acts as with `-step`. `roundUpMinutes` moves an unaligned minute to one multiple of `-step` below its rounded-down value, and throws `DateTimeException` from `withMinute` when the minute is below `-step`. These paths are not modelled.
- Extensions.DaysTo, Extensions.MonthsTo and Extensions.MonthsToCorrected build a `seq` that the loop extends. Aliasing of the returned `ArrayList` is not modelled.
- `enlarge(Period)` and `upTo`/`upFrom(Period)` are not modelled. Calendar arithmetic on months and years belongs to `java.time`.
- Parsing, formatting, `toString`, the clocks (`FixedClock`, `DelegatingClock`), and the Groovy, Mongo and Kryo integrations are outside the modelled core. The same goes for the thin `Duration` wrappers (`intdiv`, `multiply`, the `getSecs`-style factories).

## Findings

| source | as written | input that shows it | evidently intended | confidence | as-written member | corrected member |
|---|---|---|---|---|---|---|
| src/main/java/com/guestful/jsr310/ZonedInterval.java:301-303 | `safeAdd(getEndMillis(), -getStartMillis())`, where `-Long.MIN_VALUE` wraps to `Long.MIN_VALUE` | start `Long.MIN_VALUE`, end 0 returns `Long.MIN_VALUE` instead of throwing; start `Long.MIN_VALUE`, end -1 throws although the duration `Long.MAX_VALUE` fits | end minus start, throwing exactly when that does not fit a `long` | high, not executed | ZonedIntervals.ToDurationMillisAsWrittenAtMinValue | ZonedIntervals.ZonedInterval.ToDurationMillis |
| src/main/java/com/guestful/jsr310/Jsr310Extensions.java:131-140 | when `end` is before `start`, the range is widened by 7, as for days of the week | `to(NOVEMBER, FEBRUARY)` gives an empty list; `to(MARCH, FEBRUARY)` gives 7 months instead of 12 | widen by 12: the months from `start` to `end` inclusive, going round the year once | high, not executed | Extensions.MonthsToAsWrittenNovemberToFebruary | Extensions.MonthsToCorrected |
