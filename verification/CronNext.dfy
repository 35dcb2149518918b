/** CronSchedule.NextAfter: the search for the next firing of a cron expression. */
module CronNext {
  import opened Base
  import opened Calendar
  import opened FieldSets
  import CronHorizon

  datatype CronSchedule = CronSchedule(
    expr: string,
    seconds: seq<int>,
    minutes: seq<int>,
    hours: seq<int>,
    days: seq<int>,
    months: seq<int>,
    dows: seq<int>)

  predicate WellFormed(c: CronSchedule) {
    && IsFieldSet(c.seconds, 0, 59)
    && IsFieldSet(c.minutes, 0, 59)
    && IsFieldSet(c.hours, 0, 23)
    && IsFieldSet(c.days, 1, 31)
    && IsFieldSet(c.months, 1, 12)
    && IsFieldSet(c.dows, 0, 6)
  }

  /** What the search needs: an entry below the range of its field, as a wrapped step leaves one,
      does harm in the months only, where the first entry is a month to go to; and there only if a
      year can run out of months, which December never lets happen. */
  predicate Searchable(c: CronSchedule) {
    && HasFieldSet(c.seconds, 0, 59)
    && HasFieldSet(c.minutes, 0, 59)
    && HasFieldSet(c.hours, 0, 23)
    && HasFieldSet(c.days, 1, 31)
    && (IsFieldSet(c.months, 1, 12) || (HasFieldSet(c.months, 1, 12) && 12 in c.months))
    && HasFieldSet(c.dows, 0, 6)
  }

  /** The schedule fires in the second t: all six fields match, day of month and weekday both. */
  predicate Fires(c: CronSchedule, t: int) {
    && Month(t) in c.months
    && FiresOnDay(c, DayOf(t))
    && Hour(t) in c.hours
    && Minute(t) in c.minutes
    && Second(t) in c.seconds
  }

  predicate FiresOnDay(c: CronSchedule, day: int) {
    && day - MonthStart(MonthIndex(day)) + 1 in c.days
    && WeekdayOfDay(day) in c.dows
  }

  /** Some month and day of the schedule are a date that exists, February 29 included. */
  predicate Satisfiable(c: CronSchedule) {
    exists m, d :: m in c.months && d in c.days && 1 <= m <= 12 && 1 <= d <= CronHorizon.LongestMonth(m)
  }

  /** t is the first firing strictly after the instant from, given in nanoseconds. */
  ghost predicate IsNextFiring(c: CronSchedule, from: int, t: int) {
    && from < t * NANOS_PER_SECOND
    && Fires(c, t)
    && forall u :: from < u * NANOS_PER_SECOND && u < t ==> !Fires(c, u)
  }

  ghost predicate NoFiring(c: CronSchedule, from: int, to: int) {
    forall t :: from <= t < to ==> !Fires(c, t)
  }

  // Each jump of the search passes over no firing.

  /** Everything before the first day of month `to` lies in months that do not match. */
  lemma SkipMonths(c: CronSchedule, candidate: int, to: int)
    requires MonthIndex(DayOf(candidate)) < to
    requires forall k :: MonthIndex(DayOf(candidate)) <= k < to ==> k % 12 + 1 !in c.months
    ensures candidate < MonthStart(to) * SECONDS_PER_DAY
    ensures NoFiring(c, candidate, MonthStart(to) * SECONDS_PER_DAY)
  {
    hide MonthStart, MonthIndex, FiresOnDay, Hour, Minute, Second;
    var from := MonthIndex(DayOf(candidate));
    if from + 1 < to { MonthStartMonotone(from + 1, to); }
    forall t | candidate <= t < MonthStart(to) * SECONDS_PER_DAY ensures !Fires(c, t) {
      var k := MonthIndex(DayOf(t));
      if k < from {
        if k + 1 < from { MonthStartMonotone(k + 1, from); }
        assert false;
      }
      if to <= k {
        if to < k { MonthStartMonotone(to, k); }
        assert false;
      }
    }
  }

  lemma SkipDay(c: CronSchedule, candidate: int)
    requires !FiresOnDay(c, DayOf(candidate))
    ensures candidate < (DayOf(candidate) + 1) * SECONDS_PER_DAY
    ensures NoFiring(c, candidate, (DayOf(candidate) + 1) * SECONDS_PER_DAY)
  {
    hide FiresOnDay, Month, Hour, Minute, Second;
    var midnight := (DayOf(candidate) + 1) * SECONDS_PER_DAY;
    forall t | candidate <= t < midnight ensures !Fires(c, t) {
      assert DayOf(t) == DayOf(candidate);
    }
  }

  lemma SkipHours(c: CronSchedule, candidate: int, hour: int)
    requires Hour(candidate) < hour <= 24
    requires forall h :: Hour(candidate) <= h < hour ==> h !in c.hours
    ensures candidate < DayOf(candidate) * SECONDS_PER_DAY + hour * 3600
    ensures NoFiring(c, candidate, DayOf(candidate) * SECONDS_PER_DAY + hour * 3600)
  {
    hide FiresOnDay, Month, Minute, Second;
    var to := DayOf(candidate) * SECONDS_PER_DAY + hour * 3600;
    forall t | candidate <= t < to ensures !Fires(c, t) {
      assert DayOf(t) == DayOf(candidate);
      assert Hour(candidate) <= Hour(t) < hour;
    }
  }

  lemma SkipMinutes(c: CronSchedule, candidate: int, minute: int)
    requires Minute(candidate) < minute <= 60
    requires forall m :: Minute(candidate) <= m < minute ==> m !in c.minutes
    ensures candidate < candidate / 3600 * 3600 + minute * 60
    ensures NoFiring(c, candidate, candidate / 3600 * 3600 + minute * 60)
  {
    hide FiresOnDay, Month, Hour, Second;
    var to := candidate / 3600 * 3600 + minute * 60;
    forall t | candidate <= t < to ensures !Fires(c, t) {
      assert t / 3600 == candidate / 3600;
      assert Minute(candidate) <= Minute(t) < minute;
    }
  }

  lemma SkipSeconds(c: CronSchedule, candidate: int, second: int)
    requires Second(candidate) < second <= 60
    requires forall s :: Second(candidate) <= s < second ==> s !in c.seconds
    ensures candidate < candidate / 60 * 60 + second
    ensures NoFiring(c, candidate, candidate / 60 * 60 + second)
  {
    hide FiresOnDay, Month, Hour, Minute;
    var to := candidate / 60 * 60 + second;
    forall t | candidate <= t < to ensures !Fires(c, t) {
      assert t / 60 == candidate / 60;
      assert Second(candidate) <= Second(t) < second;
    }
  }

  /** time.Date, applied to an instant's own leading fields, truncates it to that unit. */
  lemma Truncations(t: int)
    ensures forall h, m, s :: Date(Year(t), Month(t), Day(t), h, m, s) == DayOf(t) * SECONDS_PER_DAY + h * 3600 + m * 60 + s
    ensures DayNumber(Year(t), Month(t), Day(t) + 1) == DayOf(t) + 1
    ensures DayOf(t) * SECONDS_PER_DAY + Hour(t) * 3600 == t / 3600 * 3600
    ensures DayOf(t) * SECONDS_PER_DAY + Hour(t) * 3600 + Minute(t) * 60 == t / 60 * 60
    ensures 1 <= Month(t) <= 12 && 12 * Year(t) + Month(t) - 1 == MonthIndex(DayOf(t))
    ensures 0 <= Hour(t) < 24 && 0 <= Minute(t) < 60 && 0 <= Second(t) < 60
  {
    hide MonthStart, MonthIndex;
    DateOfFields(t);
    ClockOfInstant(t);
    assert t / 3600 * 3600 == DayOf(t) * SECONDS_PER_DAY + Hour(t) * 3600;
    assert t / 60 * 60 == DayOf(t) * SECONDS_PER_DAY + Hour(t) * 3600 + Minute(t) * 60;
  }

  lemma YearsInOrder(t: int, u: int)
    requires t <= u
    ensures Year(t) <= Year(u)
  {
    hide MonthStart, MonthIndex;
    var i, j := MonthIndex(DayOf(t)), MonthIndex(DayOf(u));
    if j < i {
      if j + 1 < i { MonthStartMonotone(j + 1, i); }
      assert false;
    }
  }

  lemma YearEnds(t: int, year: int)
    requires Year(t) <= year
    ensures t < Date(year + 1, 1, 1, 0, 0, 0)
  {
    hide MonthStart, MonthIndex;
    var i, j := MonthIndex(DayOf(t)), 12 * (year + 1);
    assert i < j;
    if i + 1 < j { MonthStartMonotone(i + 1, j); }
  }

  // The five jumps, in the terms of the loop below.

  predicate Skips(c: CronSchedule, candidate: int, next: int) {
    candidate < next && forall t :: candidate <= t < next ==> !Fires(c, t)
  }

  lemma JumpMonth(c: CronSchedule, t: int, month: int, wrapped: bool)
    requires Searchable(c) && Month(t) !in c.months && month in c.months
    requires wrapped <==> forall m :: m in c.months ==> m < Month(t)
    requires !wrapped ==> Month(t) <= month && forall m :: m in c.months && m < month ==> m < Month(t)
    requires wrapped ==> forall m :: m in c.months ==> month <= m
    ensures Skips(c, t, Date(Year(t) + if wrapped then 1 else 0, month, 1, 0, 0, 0))
  {
    hide MonthStart, MonthIndex, FiresOnDay, Hour, Minute, Second, Weekday;
    var from := MonthIndex(DayOf(t));
    var to := 12 * (Year(t) + if wrapped then 1 else 0) + month - 1;
    assert 12 * Year(t) + Month(t) - 1 == from;
    assert from < to;
    forall k | from <= k < to ensures k % 12 + 1 !in c.months {
      assert if k / 12 == Year(t) then Month(t) <= k % 12 + 1 else wrapped && k % 12 + 1 < month;
    }
    SkipMonths(c, t, to);
  }

  /** The month that the search hands to time.Date when the month of a candidate does not match. */
  ghost predicate AsksForMonth(c: CronSchedule, candidate: int, month: int) {
    && Month(candidate) !in c.months && month in c.months
    && if exists m :: m in c.months && Month(candidate) <= m
       then Month(candidate) <= month && forall m :: m in c.months && Month(candidate) <= m ==> month <= m
       else forall m :: m in c.months ==> month <= m
  }

  /** Whatever its start, the search only ever asks for months of the calendar. */
  ghost predicate StaysInCalendar(c: CronSchedule) {
    forall candidate, month | AsksForMonth(c, candidate, month) :: 1 <= month <= 12
  }

  /** Where a year runs out of months, a search from December asks for the first of them. */
  lemma DecemberAsksForFirst(c: CronSchedule, candidate: int)
    requires HasFieldSet(c.months, 1, 12) && 12 !in c.months && Month(candidate) == 12
    ensures AsksForMonth(c, candidate, c.months[0])
  {
    hide Month;
    assert c.months != [];
  }

  /** It stays in the calendar if and only if its months do, or December is one of them. */
  lemma StaysInCalendarWhen(c: CronSchedule)
    requires HasFieldSet(c.months, 1, 12)
    ensures StaysInCalendar(c) <==> IsFieldSet(c.months, 1, 12) || 12 in c.months
  {
    if IsFieldSet(c.months, 1, 12) || 12 in c.months {
      forall candidate, month | AsksForMonth(c, candidate, month) ensures 1 <= month <= 12 {
        DateOfFields(candidate);
        hide Month;
      }
    } else {
      var december := Date(2026, 12, 1, 0, 0, 0);
      FieldsOfDate(2026, 12, 1, 0, 0, 0);
      hide Month, Date;
      DecemberAsksForFirst(c, december);
      assert c.months[0] < 1;
    }
  }

  lemma JumpDay(c: CronSchedule, t: int)
    requires Day(t) !in c.days || Weekday(t) !in c.dows
    ensures Skips(c, t, Date(Year(t), Month(t), Day(t) + 1, 0, 0, 0))
  {
    Truncations(t);
    assert !FiresOnDay(c, DayOf(t));
    hide Month, Day, Year, Hour, Minute, Second, Weekday, FiresOnDay, Fires, MonthStart, MonthIndex, DayNumber;
    SkipDay(c, t);
  }

  lemma JumpHour(c: CronSchedule, t: int, hour: int, wrapped: bool)
    requires Searchable(c) && Hour(t) !in c.hours && hour in c.hours
    requires wrapped <==> forall h :: h in c.hours ==> h < Hour(t)
    requires !wrapped ==> Hour(t) <= hour && forall h :: h in c.hours && h < hour ==> h < Hour(t)
    ensures wrapped ==> Skips(c, t, Date(Year(t), Month(t), Day(t) + 1, 0, 0, 0))
    ensures !wrapped ==> Skips(c, t, Date(Year(t), Month(t), Day(t), hour, 0, 0))
  {
    Truncations(t);
    hide Month, Day, Year, Minute, Second, Weekday, FiresOnDay, Fires, MonthStart, MonthIndex, DayNumber, Hour;
    SkipHours(c, t, if wrapped then 24 else hour);
  }

  lemma JumpMinute(c: CronSchedule, t: int, minute: int, wrapped: bool)
    requires Searchable(c) && Minute(t) !in c.minutes && minute in c.minutes
    requires wrapped <==> forall m :: m in c.minutes ==> m < Minute(t)
    requires !wrapped ==> Minute(t) <= minute && forall m :: m in c.minutes && m < minute ==> m < Minute(t)
    ensures wrapped ==> Skips(c, t, Date(Year(t), Month(t), Day(t), Hour(t) + 1, 0, 0))
    ensures !wrapped ==> Skips(c, t, Date(Year(t), Month(t), Day(t), Hour(t), minute, 0))
  {
    Truncations(t);
    hide Month, Day, Year, Hour, Second, Weekday, FiresOnDay, Fires, MonthStart, MonthIndex, DayNumber, Minute;
    SkipMinutes(c, t, if wrapped then 60 else minute);
  }

  lemma JumpSecond(c: CronSchedule, t: int, second: int, wrapped: bool)
    requires Searchable(c) && Second(t) !in c.seconds && second in c.seconds
    requires wrapped <==> forall s :: s in c.seconds ==> s < Second(t)
    requires !wrapped ==> Second(t) <= second && forall s :: s in c.seconds && s < second ==> s < Second(t)
    ensures wrapped ==> Skips(c, t, Date(Year(t), Month(t), Day(t), Hour(t), Minute(t) + 1, 0))
    ensures !wrapped ==> Skips(c, t, Date(Year(t), Month(t), Day(t), Hour(t), Minute(t), second))
  {
    Truncations(t);
    hide Month, Day, Year, Hour, Minute, Weekday, FiresOnDay, Fires, MonthStart, MonthIndex, DayNumber, Second;
    SkipSeconds(c, t, if wrapped then 60 else second);
  }

  lemma FiringIsSatisfying(c: CronSchedule, t: int)
    requires Fires(c, t)
    ensures Satisfiable(c)
  {
    hide MonthStart, MonthIndex, Hour, Minute, Second, WeekdayOfDay;
    DateOfFields(t);
    assert Month(t) in c.months && Day(t) in c.days;
    hide Month, Day, Year;
  }

  lemma SomeTimeOfDay(c: CronSchedule) returns (dow: int, hour: int, minute: int, second: int)
    requires Searchable(c)
    ensures dow in c.dows && 0 <= dow <= 6
    ensures hour in c.hours && 0 <= hour < 24
    ensures minute in c.minutes && 0 <= minute < 60
    ensures second in c.seconds && 0 <= second < 60
  {
    dow :| dow in c.dows && 0 <= dow;
    hour :| hour in c.hours && 0 <= hour;
    minute :| minute in c.minutes && 0 <= minute;
    second :| second in c.seconds && 0 <= second;
  }

  /** A satisfiable schedule fires within a hundred years: the cap never hides a firing. */
  lemma FiringWithinCentury(c: CronSchedule, from: int) returns (t: int)
    requires Searchable(c) && Satisfiable(c)
    ensures from < t && Year(t) <= Year(from) + 100 && Fires(c, t)
  {
    var m, d :| m in c.months && d in c.days && 1 <= m <= 12 && 1 <= d <= CronHorizon.LongestMonth(m);
    var dow, hour, minute, second := SomeTimeOfDay(c);
    hide Searchable, Year, Month, Day, Hour, Minute, Second, DayNumber, DayOf, MonthStart, MonthIndex, WeekdayOfDay, Fires, DaysInMonth;
    var y := CronHorizon.WeekdayInCentury(Year(from), m, d, dow);
    t := Date(y, m, d, hour, minute, second);
    FieldsOfDate(y, m, d, hour, minute, second);
    WeekdayOfDate(y, m, d, hour, minute, second);
    FiringOfFields(c, t);
    if t <= from { YearsInOrder(t, from); }
  }

  /** The condition under which NextAfter answers is the one it should be: the schedule fires again
      after any instant if it is satisfiable, and never at all if it is not. */
  lemma SatisfiableMeansFires(c: CronSchedule, from: int)
    requires Searchable(c)
    ensures Satisfiable(c) <==> exists t :: from < t && Fires(c, t)
    ensures Satisfiable(c) <==> exists t :: Fires(c, t)
  {
    hide Satisfiable, Fires, Searchable, Year;
    if Satisfiable(c) { var t := FiringWithinCentury(c, from); }
    if t :| Fires(c, t) { FiringIsSatisfying(c, t); }
  }

  lemma WeekdayOfDate(year: int, month: int, day: int, hour: int, minute: int, second: int)
    requires 0 <= hour < 24 && 0 <= minute < 60 && 0 <= second < 60
    ensures Weekday(Date(year, month, day, hour, minute, second)) == WeekdayOfDay(DayNumber(year, month, day))
  {
    ClockOfDate(DayNumber(year, month, day), hour, minute, second);
  }

  lemma FiringOfFields(c: CronSchedule, t: int)
    requires Month(t) in c.months && Day(t) in c.days && Weekday(t) in c.dows
    requires Hour(t) in c.hours && Minute(t) in c.minutes && Second(t) in c.seconds
    ensures Fires(c, t)
  {
    hide MonthStart, MonthIndex, Hour, Minute, Second, WeekdayOfDay;
  }

  lemma NothingBefore(c: CronSchedule, first: int)
    ensures NoFiring(c, first, first)
  {}

  lemma SkipExtends(c: CronSchedule, first: int, t: int, next: int)
    requires NoFiring(c, first, t) && Skips(c, t, next)
    ensures NoFiring(c, first, next) && t < next
  {}

  lemma FoundFirst(c: CronSchedule, from: int, t: int)
    requires NoFiring(c, from / NANOS_PER_SECOND + 1, t) && from / NANOS_PER_SECOND < t
    requires Month(t) in c.months && Day(t) in c.days && Weekday(t) in c.dows
    requires Hour(t) in c.hours && Minute(t) in c.minutes && Second(t) in c.seconds
    ensures IsNextFiring(c, from, t) && Satisfiable(c)
  {
    FiringOfFields(c, t);
    FiringIsSatisfying(c, t);
    hide Fires, Satisfiable, Month, Day, Weekday, Hour, Minute, Second;
    forall u | from < u * NANOS_PER_SECOND && u < t ensures !Fires(c, u) {
      assert from / NANOS_PER_SECOND + 1 <= u;
    }
  }

  lemma CapHidesNothing(c: CronSchedule, from: int, candidate: int)
    requires Searchable(c) && NoFiring(c, from + 1, candidate)
    requires Year(candidate) > Year(from) + 100
    ensures !Satisfiable(c)
  {
    hide Year, Satisfiable, Fires, Searchable;
    if Satisfiable(c) {
      var t := FiringWithinCentury(c, from);
      if candidate <= t { YearsInOrder(candidate, t); }
      assert false;
    }
  }

  /** NextAfter, with the zero time 0 for a search that passes the hundred-year cap. */
  method NextAfter(c: CronSchedule, from: int) returns (next: int)
    requires Searchable(c)
    ensures Satisfiable(c) ==> IsNextFiring(c, from, next)
    ensures !Satisfiable(c) ==> next == 0
  {
    hide MonthStart, MonthIndex, Date, DayOf, Hour, Minute, Second, Year, Month, Day, Weekday, Satisfiable, Fires;
    hide NoFiring, Skips, IsNextFiring, SearchFrom, Contains;
    var candidate := from / NANOS_PER_SECOND + 1;
    var maxYear := Year(from / NANOS_PER_SECOND) + 100;
    ghost var first := candidate;
    NothingBefore(c, first);

    while Year(candidate) <= maxYear
      invariant first <= candidate
      invariant NoFiring(c, first, candidate)
      decreases Date(maxYear + 1, 1, 1, 0, 0, 0) - candidate
    {
      YearEnds(candidate, maxYear);
      var t := candidate;

      // The month; the first of the year's months may lie in the next year.
      if !Contains(c.months, Month(t)) {
        var m, wrapped := NextOrFirst(c.months, Month(t));
        var y := Year(t);
        if wrapped { y := y + 1; }
        assert AsksForMonth(c, t, m);
        candidate := Date(y, m, 1, 0, 0, 0);
        JumpMonth(c, t, m, wrapped);
        SkipExtends(c, first, t, candidate);
        continue;
      }

      // The day, which has to match twice.
      if !Contains(c.days, Day(t)) || !Contains(c.dows, Weekday(t)) {
        candidate := Date(Year(t), Month(t), Day(t) + 1, 0, 0, 0);
        JumpDay(c, t);
        SkipExtends(c, first, t, candidate);
        continue;
      }

      // The hour.
      if !Contains(c.hours, Hour(t)) {
        var h, wrapped := NextOrFirst(c.hours, Hour(t));
        if wrapped {
          candidate := Date(Year(t), Month(t), Day(t) + 1, 0, 0, 0);
        } else {
          candidate := Date(Year(t), Month(t), Day(t), h, 0, 0);
        }
        JumpHour(c, t, h, wrapped);
        SkipExtends(c, first, t, candidate);
        continue;
      }

      // The minute.
      if !Contains(c.minutes, Minute(t)) {
        var m, wrapped := NextOrFirst(c.minutes, Minute(t));
        if wrapped {
          candidate := Date(Year(t), Month(t), Day(t), Hour(t) + 1, 0, 0);
        } else {
          candidate := Date(Year(t), Month(t), Day(t), Hour(t), m, 0);
        }
        JumpMinute(c, t, m, wrapped);
        SkipExtends(c, first, t, candidate);
        continue;
      }

      // The second.
      if !Contains(c.seconds, Second(t)) {
        var s, wrapped := NextOrFirst(c.seconds, Second(t));
        if wrapped {
          candidate := Date(Year(t), Month(t), Day(t), Hour(t), Minute(t) + 1, 0);
        } else {
          candidate := Date(Year(t), Month(t), Day(t), Hour(t), Minute(t), s);
        }
        JumpSecond(c, t, s, wrapped);
        SkipExtends(c, first, t, candidate);
        continue;
      }

      FoundFirst(c, from, t);
      return t;
    }
    CapHidesNothing(c, from / NANOS_PER_SECOND, candidate);
    return 0;
  }
}
