/** `Jsr310StaticExtensions`: the latest representable date-time, the empty
    interval placed there, the lists of all days of the week and of all
    months, and the lookup of a day or a month by the start of its name. */
module StaticExtensions {
  import opened Outcomes
  import opened Int64
  import opened Temporal
  import opened ZonedIntervals

  // ---------------------------------------------------------------------
  // The maximum date-time and the empty interval

  /** `MAX_ZonedDateTime`: 9999-12-31T23:59:59 at offset +18:00. */
  function MaxZonedDateTime(): (t: ZonedDateTime)
    ensures t.ToEpochMilli() == 253402235999000 && t.zone == ZONE_OFFSET_MAX
    ensures t.IsMilliPrecise() && t.DayOfWeek() == Friday
  {
    ZonedDateTime(EpochDay(9999, 12, 31), LocalTime(23, 59, 59, 0), ZONE_OFFSET_MAX)
  }

  /** `EMPTY_ZonedInterval`: the zero-length interval at
      `MAX_ZonedDateTime`. `ZonedInterval.EMPTY` copies it, and so has this
      value only when `ZonedInterval` is initialised first. */
  function EmptyZonedInterval(): (i: ZonedInterval)
    ensures i.start == i.end == 253402235999000 && i.zone == ZONE_OFFSET_MAX
  {
    var max := MaxZonedDateTime();
    OfZoned(max, max)
  }

  /** The empty interval has no duration and contains no instant; it
      overlaps exactly the intervals that run across its instant, and it
      abuts itself. */
  lemma EmptyZonedIntervalIsEmpty(other: ZonedInterval)
    ensures EmptyZonedInterval().ToDurationMillis() == Ok(0)
    ensures forall t: Long :: !EmptyZonedInterval().Contains(t)
    ensures EmptyZonedInterval().Overlaps(other)
            <==> other.start < 253402235999000 < other.end
    ensures EmptyZonedInterval().Abuts(EmptyZonedInterval())
  {
  }

  // ---------------------------------------------------------------------
  // All values of the two enumerations

  /** `getALL(DayOfWeek)`: `DayOfWeek.values()`, Monday first. */
  function AllDaysOfWeek(): (r: seq<DayOfWeek>)
    ensures |r| == 7
    ensures forall k :: 0 <= k < 7 ==> r[k].Value() == k + 1
    ensures forall d: DayOfWeek :: r[d.Value() - 1] == d
  {
    [Monday, Tuesday, Wednesday, Thursday, Friday, Saturday, Sunday]
  }

  /** `getALL(Month)`: `Month.values()`, January first. */
  function AllMonths(): (r: seq<Month>)
    ensures |r| == 12
    ensures forall k :: 0 <= k < 12 ==> r[k].Value() == k + 1
    ensures forall m: Month :: r[m.Value() - 1] == m
  {
    [January, February, March, April, May, June,
     July, August, September, October, November, December]
  }

  // ---------------------------------------------------------------------
  // Lookup by the start of a name

  /** The position of the first of `names` that starts with `prefix`. */
  function FirstIndexWithPrefix(names: seq<string>, prefix: string): (r: Option<nat>)
    ensures r.None? <==> forall k :: 0 <= k < |names| ==> !(prefix <= names[k])
    ensures r.Some? ==> r.value < |names| && prefix <= names[r.value]
    ensures r.Some? ==> forall k :: 0 <= k < r.value ==> !(prefix <= names[k])
  {
    if |names| == 0 then None
    else if prefix <= names[0] then Some(0)
    else match FirstIndexWithPrefix(names[1..], prefix)
      case None => None
      case Some(k) => Some(k + 1)
  }

  /** A match with no earlier match is the first one. */
  lemma FirstIndexIsUnique(names: seq<string>, prefix: string, k: nat)
    requires k < |names| && prefix <= names[k]
    requires forall j :: 0 <= j < k ==> !(prefix <= names[j])
    ensures FirstIndexWithPrefix(names, prefix) == Some(k)
  {
    var r := FirstIndexWithPrefix(names, prefix);
    assert r.Some?;
    assert r.value <= k;
  }

  /** The day `fromName(DayOfWeek, name)` answers: the first in declaration
      order whose name starts with `name`, or `IllegalArgumentException`. */
  function DayOfWeekNamed(name: string): (r: Result<DayOfWeek>)
    ensures r.Err? <==> forall d: DayOfWeek :: !(name <= d.Name())
    ensures r.Err? ==> r.error == IllegalArgument
    ensures r.Ok? ==> name <= r.value.Name()
    ensures r.Ok? ==> forall d: DayOfWeek :: d.Value() < r.value.Value() ==> !(name <= d.Name())
  {
    match FirstIndexWithPrefix(DAY_OF_WEEK_NAMES, name)
    case None =>
      assert forall d: DayOfWeek :: !(name <= DAY_OF_WEEK_NAMES[d.Value() - 1]);
      Err(IllegalArgument)
    case Some(k) =>
      assert AllDaysOfWeek()[k].Value() == k + 1;
      Ok(AllDaysOfWeek()[k])
  }

  /** The month `fromName(Month, name)` answers: the first in declaration
      order whose name starts with `name`, or `IllegalArgumentException`. */
  function MonthNamed(name: string): (r: Result<Month>)
    ensures r.Err? <==> forall m: Month :: !(name <= m.Name())
    ensures r.Err? ==> r.error == IllegalArgument
    ensures r.Ok? ==> name <= r.value.Name()
    ensures r.Ok? ==> forall m: Month :: m.Value() < r.value.Value() ==> !(name <= m.Name())
  {
    match FirstIndexWithPrefix(MONTH_NAMES, name)
    case None =>
      assert forall m: Month :: !(name <= MONTH_NAMES[m.Value() - 1]);
      Err(IllegalArgument)
    case Some(k) =>
      assert AllMonths()[k].Value() == k + 1;
      Ok(AllMonths()[k])
  }

  /** A day whose name starts with `name`, after none that does, is the
      answer. */
  lemma DayOfWeekNamedIs(name: string, d: DayOfWeek)
    requires name <= d.Name()
    requires forall e: DayOfWeek :: e.Value() < d.Value() ==> !(name <= e.Name())
    ensures DayOfWeekNamed(name) == Ok(d)
  {
    var r := DayOfWeekNamed(name);
    assert r.Ok?;
    assert r.value.Value() == d.Value();
  }

  /** A month whose name starts with `name`, after none that does, is the
      answer. */
  lemma MonthNamedIs(name: string, m: Month)
    requires name <= m.Name()
    requires forall e: Month :: e.Value() < m.Value() ==> !(name <= e.Name())
    ensures MonthNamed(name) == Ok(m)
  {
    var r := MonthNamed(name);
    assert r.Ok?;
    assert r.value.Value() == m.Value();
  }

  /** `fromName(DayOfWeek o, String name)`: walks `DayOfWeek.values()` and
      returns the first day whose name starts with `name`. */
  method DayOfWeekFromName(name: string) returns (r: Result<DayOfWeek>)
    ensures r == DayOfWeekNamed(name)
  {
    var values := AllDaysOfWeek();
    var k := 0;
    while k < |values|
      invariant 0 <= k <= |values|
      invariant forall j :: 0 <= j < k ==> !(name <= DAY_OF_WEEK_NAMES[j])
    {
      assert values[k].Name() == DAY_OF_WEEK_NAMES[k];
      if name <= values[k].Name() {
        FirstIndexIsUnique(DAY_OF_WEEK_NAMES, name, k);
        return Ok(values[k]);
      }
      k := k + 1;
    }
    return Err(IllegalArgument);
  }

  /** `fromName(Month o, String name)`: walks `Month.values()` and returns
      the first month whose name starts with `name`. */
  method MonthFromName(name: string) returns (r: Result<Month>)
    ensures r == MonthNamed(name)
  {
    var values := AllMonths();
    var k := 0;
    while k < |values|
      invariant 0 <= k <= |values|
      invariant forall j :: 0 <= j < k ==> !(name <= MONTH_NAMES[j])
    {
      assert values[k].Name() == MONTH_NAMES[k];
      if name <= values[k].Name() {
        FirstIndexIsUnique(MONTH_NAMES, name, k);
        return Ok(values[k]);
      }
      k := k + 1;
    }
    return Err(IllegalArgument);
  }

  /** The lookup is by prefix and in declaration order: "T" is Tuesday,
      not Thursday. */
  lemma DayOfWeekNamedTIsTuesday()
    ensures DayOfWeekNamed("T") == Ok(Tuesday)
  {
    assert !("T" <= Monday.Name()) by { assert "T"[0] != Monday.Name()[0]; }
    DayOfWeekNamedIs("T", Tuesday);
  }

  /** "S" is Saturday, not Sunday. */
  lemma DayOfWeekNamedSIsSaturday()
    ensures DayOfWeekNamed("S") == Ok(Saturday)
  {
    forall e: DayOfWeek | e.Value() < Saturday.Value()
      ensures !("S" <= e.Name())
    {
      assert e.Name()[0] != 'S' by {
        match e
        case 1 =>
        case 2 =>
        case 3 =>
        case 4 =>
        case 5 =>
        case _ =>
      }
    }
    DayOfWeekNamedIs("S", Saturday);
  }

  /** The lookup is case-sensitive: "mon" is no day. */
  lemma DayOfWeekNamedIsCaseSensitive()
    ensures DayOfWeekNamed("mon").Err?
  {
    forall d: DayOfWeek
      ensures !("mon" <= d.Name())
    {
      assert 'A' <= d.Name()[0] <= 'Z' by {
        match d
        case 1 =>
        case 2 =>
        case 3 =>
        case 4 =>
        case 5 =>
        case 6 =>
        case _ =>
      }
    }
  }

  /** "JU" is June, not July; the empty name is January. */
  lemma MonthNamedExamples()
    ensures MonthNamed("JU") == Ok(June)
    ensures MonthNamed("") == Ok(January)
  {
    assert !("JU" <= January.Name()) by { assert "JU"[1] != January.Name()[1]; }
    assert !("JU" <= February.Name()) by { assert "JU"[0] != February.Name()[0]; }
    assert !("JU" <= March.Name()) by { assert "JU"[0] != March.Name()[0]; }
    assert !("JU" <= April.Name()) by { assert "JU"[0] != April.Name()[0]; }
    assert !("JU" <= May.Name()) by { assert "JU"[0] != May.Name()[0]; }
    MonthNamedIs("JU", June);
    MonthNamedIs("", January);
  }

  /** No day's name starts with the name of another day. */
  lemma DayOfWeekNamesPrefixFree(a: DayOfWeek, b: DayOfWeek)
    ensures a.Name() <= b.Name() ==> a == b
  {
    if a != b {
      var x, y := a.Name(), b.Name();
      assert x[0] != y[0] || x[1] != y[1] by {
        match a
        case 1 =>
        case 2 =>
        case 3 =>
        case 4 =>
        case 5 =>
        case 6 =>
        case _ =>
      }
    }
  }

  /** Looking up a day by its full name finds that day. */
  lemma DayOfWeekNamedOwnName(d: DayOfWeek)
    ensures DayOfWeekNamed(d.Name()) == Ok(d)
  {
    forall e: DayOfWeek | e.Value() < d.Value()
      ensures !(d.Name() <= e.Name())
    {
      DayOfWeekNamesPrefixFree(d, e);
    }
    DayOfWeekNamedIs(d.Name(), d);
  }

  /** No month's name starts with the name of another month. */
  lemma MonthNamesPrefixFree(a: Month, b: Month)
    ensures a.Name() <= b.Name() ==> a == b
  {
    if a != b {
      var x, y := a.Name(), b.Name();
      assert x[0] != y[0] || x[1] != y[1] || x[2] != y[2] by {
        match a
        case 1 =>
        case 2 =>
        case 3 =>
        case 4 =>
        case 5 =>
        case 6 =>
        case 7 =>
        case 8 =>
        case 9 =>
        case 10 =>
        case 11 =>
        case _ =>
      }
    }
  }

  /** Looking up a month by its full name finds that month. */
  lemma MonthNamedOwnName(m: Month)
    ensures MonthNamed(m.Name()) == Ok(m)
  {
    forall e: Month | e.Value() < m.Value()
      ensures !(m.Name() <= e.Name())
    {
      MonthNamesPrefixFree(m, e);
    }
    MonthNamedIs(m.Name(), m);
  }
}
