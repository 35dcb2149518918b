/** Why a hundred years are enough: every date that exists, February 29 included, falls on
    every weekday within the hundred years after any year. */
module CronHorizon {
  import Arithmetic
  import opened Calendar

  /** The days the month has in a leap year. */
  function LongestMonth(month: int): int
    requires 1 <= month <= 12
  {
    if month == 2 then 29 else if month in {4, 6, 9, 11} then 30 else 31
  }

  /** From a leap year to a leap year four years on, a date moves by 1461 days: 5 weekdays. */
  lemma FourYearsOn(year: int, month: int, day: int)
    requires 1 <= month <= 12
    requires year % 4 == 0 && year % 100 != 0 && (year + 4) % 100 != 0
    ensures WeekdayOfDay(DayNumber(year + 4, month, day)) == (WeekdayOfDay(DayNumber(year, month, day)) + 5) % 7
  {
    YearStartStep(year);
    YearStartStep(year + 1);
    YearStartStep(year + 2);
    YearStartStep(year + 3);
    hide YearStart;
    var index := 12 * year + month - 1;
    assert index / 12 == year && index % 12 == month - 1;
    assert (index + 48) / 12 == year + 4 && (index + 48) % 12 == month - 1;
    assert DayNumber(year + 4, month, day) == DayNumber(year, month, day) + 1461;
  }

  lemma SameCentury(start: int, steps: nat)
    requires start % 4 == 0 && start % 100 + 4 * steps < 100
    ensures (start + 4 * steps) % 4 == 0 && (start + 4 * steps) % 100 == start % 100 + 4 * steps
  {
    Arithmetic.DivMod(100, start / 100, start % 100 + 4 * steps);
    Arithmetic.DivMod(4, start / 4 + steps, 0);
  }

  lemma {:induction false} WeekdayAfter(start: int, steps: nat, month: int, day: int)
    requires 1 <= month <= 12
    requires start % 4 == 0 && 0 < start % 100 && start % 100 + 4 * steps < 100
    ensures WeekdayOfDay(DayNumber(start + 4 * steps, month, day))
         == (WeekdayOfDay(DayNumber(start, month, day)) + 5 * steps) % 7
  {
    hide DayNumber, WeekdayOfDay;
    var first := WeekdayOfDay(DayNumber(start, month, day));
    if steps > 0 {
      var last := start + 4 * (steps - 1);
      WeekdayAfter(start, steps - 1, month, day);
      SameCentury(start, steps - 1);
      SameCentury(start, steps);
      assert last + 4 == start + 4 * steps;
      FourYearsOn(last, month, day);
      Arithmetic.ModStep(first + 5 * (steps - 1), 5);
    } else {
      WeekdayInRange(DayNumber(start, month, day));
    }
  }

  lemma WeekdayInRange(day: int)
    ensures 0 <= WeekdayOfDay(day) <= 6 && WeekdayOfDay(day) % 7 == WeekdayOfDay(day)
  {}

  /** After any year, seven consecutive fourth years of one century within a hundred years. */
  lemma LeapStretch(year: int) returns (start: int)
    ensures year < start && start + 24 <= year + 100
    ensures start % 4 == 0 && 0 < start % 100 && start % 100 + 24 < 100
  {
    var century := year / 100 + 1;
    if 100 * century <= year + 72 {
      start := 100 * century + 4;
      Arithmetic.DivMod(100, century, 4);
    } else {
      start := 100 * century - 28;
      Arithmetic.DivMod(100, century - 1, 72);
    }
  }

  lemma WeekdayInCentury(year: int, month: int, day: int, weekday: int) returns (y: int)
    requires 1 <= month <= 12 && 1 <= day <= LongestMonth(month) && 0 <= weekday <= 6
    ensures year < y <= year + 100
    ensures day <= DaysInMonth(y, month)
    ensures WeekdayOfDay(DayNumber(y, month, day)) == weekday
  {
    hide DayNumber, WeekdayOfDay;
    var start := LeapStretch(year);
    var first := WeekdayOfDay(DayNumber(start, month, day));
    var steps := 3 * (weekday - first) % 7;
    WeekdayAfter(start, steps, month, day);
    y := start + 4 * steps;
    Arithmetic.DivMod(100, start / 100, start % 100 + 4 * steps);
    FiveThirdsOfAWeek(first, weekday, steps);
  }

  /** 3 is the inverse of 5 modulo 7. */
  lemma FiveThirdsOfAWeek(first: int, weekday: int, steps: int)
    requires 0 <= weekday <= 6 && steps == 3 * (weekday - first) % 7
    ensures (first + 5 * steps) % 7 == weekday
  {
    var q := 3 * (weekday - first) / 7;
    assert first + 5 * steps == 7 * (2 * (weekday - first) - 5 * q) + weekday;
  }
}
