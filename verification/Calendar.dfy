/** The proleptic Gregorian calendar in UTC, as Go's time package presents it to cron.go.

    An instant is a whole number of seconds since 0001-01-01T00:00:00Z, so that Go's zero
    time is the instant 0. A month is named by its index 12 * year + (month - 1): with that,
    the overflow of days, hours and minutes in time.Date is ordinary addition. */
module Calendar {
  import Arithmetic

  const SECONDS_PER_DAY := 86400
  const NANOS_PER_SECOND := 1_000_000_000

  /** The leap-year rule of RFC 3339, Appendix C. */
  predicate IsLeap(year: int) {
    year % 4 == 0 && (year % 100 != 0 || year % 400 == 0)
  }

  function DaysInMonth(year: int, month: int): (days: int)
    requires 1 <= month <= 12
    ensures 28 <= days <= 31
  {
    if month == 2 then (if IsLeap(year) then 29 else 28)
    else if month in {4, 6, 9, 11} then 30
    else 31
  }

  /** The days from 0001-01-01 to January 1 of the year. */
  function YearStart(year: int): int {
    365 * (year - 1) + (year - 1) / 4 - (year - 1) / 100 + (year - 1) / 400
  }

  function DaysBeforeMonth(year: int, month: int): int
    requires 1 <= month <= 12
  {
    [0, 31, 59, 90, 120, 151, 181, 212, 243, 273, 304, 334][month - 1]
    + (if month > 2 && IsLeap(year) then 1 else 0)
  }

  /** The days from 0001-01-01 to the first day of the month with this index. */
  function MonthStart(index: int): int {
    YearStart(index / 12) + DaysBeforeMonth(index / 12, index % 12 + 1)
  }

  lemma YearStartStep(year: int)
    ensures YearStart(year + 1) == YearStart(year) + if IsLeap(year) then 366 else 365
  {
    var y := year - 1;
    assert (y + 1) / 4 == y / 4 + if year % 4 == 0 then 1 else 0;
    assert (y + 1) / 100 == y / 100 + if year % 100 == 0 then 1 else 0;
    assert (y + 1) / 400 == y / 400 + if year % 400 == 0 then 1 else 0;
  }

  /** The closed form above adds up the month lengths: the months tile the days. */
  lemma MonthStartStep(index: int)
    ensures MonthStart(index + 1) == MonthStart(index) + DaysInMonth(index / 12, index % 12 + 1)
  {
    if index % 12 == 11 {
      YearStartStep(index / 12);
      assert (index + 1) / 12 == index / 12 + 1 && (index + 1) % 12 == 0;
    } else {
      assert (index + 1) / 12 == index / 12 && (index + 1) % 12 == index % 12 + 1;
    }
  }

  lemma {:induction false} MonthStartMonotone(i: int, j: int)
    requires i < j
    ensures MonthStart(i) + 28 * (j - i) <= MonthStart(j)
    decreases j - i
  {
    hide MonthStart;
    MonthStartStep(j - 1);
    if i < j - 1 { MonthStartMonotone(i, j - 1); }
  }

  /** The index of the month that holds a day, searched for from a guess. */
  function MonthIndexFrom(day: int, guess: int): (index: int)
    ensures MonthStart(index) <= day < MonthStart(index + 1)
    decreases if day < MonthStart(guess) then MonthStart(guess) - day
              else if day < MonthStart(guess + 1) then 0 else day - MonthStart(guess)
  {
    hide MonthStart;
    MonthStartStep(guess);
    MonthStartStep(guess - 1);
    if day < MonthStart(guess) then MonthIndexFrom(day, guess - 1)
    else if day < MonthStart(guess + 1) then guess
    else MonthIndexFrom(day, guess + 1)
  }

  function MonthIndex(day: int): (index: int)
    ensures MonthStart(index) <= day < MonthStart(index + 1)
  {
    hide MonthStart;
    MonthIndexFrom(day, 12)
  }

  lemma MonthIndexUnique(day: int, index: int)
    requires MonthStart(index) <= day < MonthStart(index + 1)
    ensures MonthIndex(day) == index
  {
    hide MonthStart, MonthIndex;
    var found := MonthIndex(day);
    if found < index {
      if found + 1 < index { MonthStartMonotone(found + 1, index); }
    } else if index < found {
      if index + 1 < found { MonthStartMonotone(index + 1, found); }
    }
  }

  // What Go's accessors return of an instant.

  function DayOf(t: int): int { t / SECONDS_PER_DAY }

  function Year(t: int): int { MonthIndex(DayOf(t)) / 12 }

  function Month(t: int): int { MonthIndex(DayOf(t)) % 12 + 1 }

  function Day(t: int): int { DayOf(t) - MonthStart(MonthIndex(DayOf(t))) + 1 }

  function Hour(t: int): int { t % SECONDS_PER_DAY / 3600 }

  function Minute(t: int): int { t % 3600 / 60 }

  function Second(t: int): int { t % 60 }

  /** 0 is Sunday; 0001-01-01 was a Monday. */
  function WeekdayOfDay(day: int): int { (day + 1) % 7 }

  function Weekday(t: int): int { WeekdayOfDay(DayOf(t)) }

  function DayNumber(year: int, month: int, day: int): int {
    MonthStart(12 * year + month - 1) + day - 1
  }

  /** Go's time.Date in UTC, with its normalisation of fields out of range. */
  function Date(year: int, month: int, day: int, hour: int, minute: int, second: int): int {
    DayNumber(year, month, day) * SECONDS_PER_DAY + hour * 3600 + minute * 60 + second
  }

  /** The accessors read back what Date was given, for every date on the calendar. */
  lemma FieldsOfDate(year: int, month: int, day: int, hour: int, minute: int, second: int)
    requires 1 <= month <= 12 && 1 <= day <= DaysInMonth(year, month)
    requires 0 <= hour < 24 && 0 <= minute < 60 && 0 <= second < 60
    ensures var t := Date(year, month, day, hour, minute, second);
            && Year(t) == year && Month(t) == month && Day(t) == day
            && Hour(t) == hour && Minute(t) == minute && Second(t) == second
  {
    var index := 12 * year + month - 1;
    hide MonthStart, MonthIndex, Hour, Minute, Second;
    assert index / 12 == year && index % 12 == month - 1;
    MonthStartStep(index);
    MonthIndexUnique(DayNumber(year, month, day), index);
    ClockOfDate(DayNumber(year, month, day), hour, minute, second);
  }

  lemma ClockOfDate(day: int, hour: int, minute: int, second: int)
    requires 0 <= hour < 24 && 0 <= minute < 60 && 0 <= second < 60
    ensures var t := day * SECONDS_PER_DAY + hour * 3600 + minute * 60 + second;
            DayOf(t) == day && Hour(t) == hour && Minute(t) == minute && Second(t) == second
  {
    var t := day * SECONDS_PER_DAY + hour * 3600 + minute * 60 + second;
    Arithmetic.DivMod(SECONDS_PER_DAY, day, hour * 3600 + minute * 60 + second);
    Arithmetic.DivMod(3600, hour, minute * 60 + second);
    Arithmetic.DivMod(3600, 24 * day + hour, minute * 60 + second);
    Arithmetic.DivMod(60, minute, second);
    Arithmetic.DivMod(60, 1440 * day + 60 * hour + minute, second);
    assert t == (24 * day + hour) * 3600 + (minute * 60 + second);
    assert t == (1440 * day + 60 * hour + minute) * 60 + second;
  }

  /** Every instant is the Date of its own fields, and those fields are in range. */
  lemma DateOfFields(t: int)
    ensures 1 <= Month(t) <= 12 && 1 <= Day(t) <= DaysInMonth(Year(t), Month(t))
    ensures 0 <= Hour(t) < 24 && 0 <= Minute(t) < 60 && 0 <= Second(t) < 60
    ensures t == Date(Year(t), Month(t), Day(t), Hour(t), Minute(t), Second(t))
  {
    hide MonthStart, MonthIndex, Hour, Minute, Second;
    var index := MonthIndex(DayOf(t));
    MonthStartStep(index);
    assert 12 * Year(t) + Month(t) - 1 == index;
    ClockOfInstant(t);
  }

  lemma ClockOfInstant(t: int)
    ensures 0 <= Hour(t) < 24 && 0 <= Minute(t) < 60 && 0 <= Second(t) < 60
    ensures t == DayOf(t) * SECONDS_PER_DAY + Hour(t) * 3600 + Minute(t) * 60 + Second(t)
  {
    var day, clock := t / SECONDS_PER_DAY, t % SECONDS_PER_DAY;
    var hour, rest := clock / 3600, clock % 3600;
    ClockOfDate(day, hour, rest / 60, rest % 60);
  }

  /** The day-of-week formula of RFC 3339, Appendix B, for a month counted from March. */
  function Rfc3339Weekday(year: int, month: int, day: int): int {
    var m := if month < 3 then month + 10 else month - 2;
    var y := if month < 3 then year - 1 else year;
    ((26 * m - 2) / 10 + day + y % 100 + y % 100 / 4 + y / 100 / 4 + 5 * (y / 100)) % 7
  }

  /** In a year counted from March the leap day falls out of the months that precede. */
  lemma MonthsSinceMarch(year: int, month: int)
    requires 1 <= month <= 12
    ensures var m := if month < 3 then month + 10 else month - 2;
            var days := DaysBeforeMonth(year, month) - if month < 3 then 0 else if IsLeap(year) then 366 else 365;
            days % 7 == (26 * m - 2) / 10 % 7
  {}

  /** Counting days modulo 7 from Monday, 0001-01-01, gives the weekdays of RFC 3339. */
  lemma WeekdayMatchesRfc3339(year: int, month: int, day: int)
    requires 1 <= month <= 12
    ensures WeekdayOfDay(DayNumber(year, month, day)) == Rfc3339Weekday(year, month, day)
  {
    var y := if month < 3 then year - 1 else year;
    var cent, yy := y / 100, y % 100;
    var m := if month < 3 then month + 10 else month - 2;
    var days := DaysBeforeMonth(year, month) - if month < 3 then 0 else if IsLeap(year) then 366 else 365;
    DayNumberFromMarch(year, month, day);
    MonthsSinceMarch(year, month);
    hide DaysBeforeMonth, DayNumber, YearStart, IsLeap;
    WeekdaySum(DayNumber(year, month, day), cent, yy, yy / 4, cent / 4, days, (26 * m - 2) / 10, day);
  }

  lemma WeekdaySum(n: int, cent: int, yy: int, leaps: int, cycles: int, days: int, march: int, day: int)
    requires n == 365 * (100 * cent + yy) + 25 * cent + leaps - cent + cycles + days + day - 1
    requires days % 7 == march % 7
    ensures (n + 1) % 7 == (march + day + yy + leaps + cycles + 5 * cent) % 7
  {
    var w := 5214 * cent + 52 * yy + 3 * cent + (days - march) / 7;
    SameRemainder(days, march);
    Arithmetic.ModStep(7 * w, march + day + yy + leaps + cycles + 5 * cent);
  }

  lemma SameRemainder(a: int, b: int)
    requires a % 7 == b % 7
    ensures a == 7 * ((a - b) / 7) + b
  {}

  lemma DayNumberFromMarch(year: int, month: int, day: int)
    requires 1 <= month <= 12
    ensures var y := if month < 3 then year - 1 else year;
            var days := DaysBeforeMonth(year, month) - if month < 3 then 0 else if IsLeap(year) then 366 else 365;
            DayNumber(year, month, day) == 365 * y + 25 * (y / 100) + y % 100 / 4 - y / 100 + y / 100 / 4 + days + day - 1
  {
    var y := if month < 3 then year - 1 else year;
    var index := 12 * year + month - 1;
    assert index / 12 == year && index % 12 == month - 1;
    YearStartStep(year);
    hide DaysBeforeMonth;
    assert y / 4 == 25 * (y / 100) + y % 100 / 4;
    assert y / 400 == y / 100 / 4;
  }
}
