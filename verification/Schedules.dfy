/** ParseSchedule and Every: schedules from their expressions, and expressions from schedules. */
module Schedules {
  import opened Base
  import opened Text
  import FieldSets
  import opened Calendar
  import opened CronNext
  import opened CronParse

  /** Intervals are in nanoseconds, like Go's time.Duration. */
  datatype Schedule =
    | Cron(cron: CronSchedule)
    | Interval(interval: int, expr: string)
  {
    function Expr(): string {
      if Cron? then cron.expr else expr
    }
  }

  // Cron expressions.

  ghost function CronOf(expr: string): Result<CronSchedule, ParseError> {
    var fields := Fields(expr);
    if |fields| == 5 then
      var minutes :- FieldValues(fields[0], 0, 59);
      var hours :- FieldValues(fields[1], 0, 23);
      var days :- FieldValues(fields[2], 1, 31);
      var months :- FieldValues(fields[3], 1, 12);
      var dows :- FieldValues(fields[4], 0, 6);
      Ok(CronSchedule(expr, [0], minutes, hours, days, months, dows))
    else if |fields| == 6 then
      var seconds :- FieldValues(fields[0], 0, 59);
      var minutes :- FieldValues(fields[1], 0, 59);
      var hours :- FieldValues(fields[2], 0, 23);
      var days :- FieldValues(fields[3], 1, 31);
      var months :- FieldValues(fields[4], 1, 12);
      var dows :- FieldValues(fields[5], 0, 6);
      Ok(CronSchedule(expr, seconds, minutes, hours, days, months, dows))
    else Err(FieldCount)
  }

  method ParseCron(expr: string) returns (r: Result<CronSchedule, ParseError>)
    ensures r == CronOf(expr)
  {
    hide FieldValues;
    var fields := Fields(expr);
    if |fields| == 5 {
      var minutes :- ParseField(fields[0], 0, 59);
      var hours :- ParseField(fields[1], 0, 23);
      var days :- ParseField(fields[2], 1, 31);
      var months :- ParseField(fields[3], 1, 12);
      var dows :- ParseField(fields[4], 0, 6);
      return Ok(CronSchedule(expr, [0], minutes, hours, days, months, dows));
    } else if |fields| == 6 {
      var seconds :- ParseField(fields[0], 0, 59);
      var minutes :- ParseField(fields[1], 0, 59);
      var hours :- ParseField(fields[2], 0, 23);
      var days :- ParseField(fields[3], 1, 31);
      var months :- ParseField(fields[4], 1, 12);
      var dows :- ParseField(fields[5], 0, 6);
      return Ok(CronSchedule(expr, seconds, minutes, hours, days, months, dows));
    } else {
      return Err(FieldCount);
    }
  }

  /** The text of a field, read on its own, selects the value v. */
  ghost predicate Selects(field: string, lo: int, hi: int, v: int) {
    var parts := ParseParts(Split(field, ','), lo, hi);
    parts.Ok? && Denotes(parts.value, v)
  }

  ghost predicate FieldStepsFit(field: string, lo: int, hi: int) {
    var parts := ParseParts(Split(field, ','), lo, hi);
    parts.Ok? && StepsFit(parts.value)
  }

  /** The fields of an expression; a missing seconds field stands for "0". */
  function SixFields(expr: string): seq<string> {
    if |Fields(expr)| == 5 then ["0"] + Fields(expr) else Fields(expr)
  }

  /** What a cron expression promises, without reference to the sorted sets: the second t is
      selected by every one of its fields. */
  ghost predicate ExprSelects(expr: string, t: int) {
    var f := SixFields(expr);
    && |f| == 6
    && Selects(f[0], 0, 59, Second(t))
    && Selects(f[1], 0, 59, Minute(t))
    && Selects(f[2], 0, 23, Hour(t))
    && Selects(f[3], 1, 31, Day(t))
    && Selects(f[4], 1, 12, Month(t))
    && Selects(f[5], 0, 6, Weekday(t))
  }

  ghost predicate ExprStepsFit(expr: string) {
    var f := SixFields(expr);
    && |f| == 6
    && FieldStepsFit(f[0], 0, 59) && FieldStepsFit(f[1], 0, 59) && FieldStepsFit(f[2], 0, 23)
    && FieldStepsFit(f[3], 1, 31) && FieldStepsFit(f[4], 1, 12) && FieldStepsFit(f[5], 0, 6)
  }

  ghost predicate FieldAccepted(field: string, lo: int, hi: int)
    requires 0 <= lo <= hi <= 59
  {
    FieldValues(field, lo, hi).Ok?
  }

  /** An expression is accepted exactly when it has five or six fields and each of them is. */
  lemma AcceptedWhen(expr: string)
    ensures CronOf(expr).Ok? <==>
              var f := SixFields(expr);
              && |f| == 6
              && FieldAccepted(f[0], 0, 59) && FieldAccepted(f[1], 0, 59) && FieldAccepted(f[2], 0, 23)
              && FieldAccepted(f[3], 1, 31) && FieldAccepted(f[4], 1, 12) && FieldAccepted(f[5], 0, 6)
  {
    ZeroField();
    hide FieldValues, Fields;
  }

  ghost predicate FieldFits(field: string, lo: int, hi: int)
    requires 0 <= lo <= hi <= 59
  {
    FieldAccepted(field, lo, hi) && FieldStepsFit(field, lo, hi)
  }

  lemma AllFieldsFit(expr: string)
    requires |Fields(expr)| in {5, 6}
    requires var f := SixFields(expr);
             && FieldFits(f[0], 0, 59) && FieldFits(f[1], 0, 59) && FieldFits(f[2], 0, 23)
             && FieldFits(f[3], 1, 31) && FieldFits(f[4], 1, 12) && FieldFits(f[5], 0, 6)
    ensures CronOf(expr).Ok? && ExprStepsFit(expr) && MonthStepsFit(expr)
  {
    AcceptedWhen(expr);
    hide FieldAccepted, FieldStepsFit, Fields, CronOf;
  }

  lemma FieldSelects(field: string, lo: int, hi: int)
    requires 0 <= lo <= hi <= 59 && FieldValues(field, lo, hi).Ok?
    ensures FieldStepsFit(field, lo, hi) <==> FieldSets.IsFieldSet(FieldValues(field, lo, hi).value, lo, hi)
    ensures FieldSets.HasFieldSet(FieldValues(field, lo, hi).value, lo, hi)
    ensures !FieldStepsFit(field, lo, hi) ==>
              FieldValues(field, lo, hi).value != [] && FieldValues(field, lo, hi).value[0] <= MIN_INT64 + 59
    ensures FieldStepsFit(field, lo, hi) ==>
              forall v :: v in FieldValues(field, lo, hi).value <==> Selects(field, lo, hi, v)
  {
    FieldMeaning(field, lo, hi);
  }

  /** A field that is one number. */
  lemma NumberField(text: string, v: int, lo: int, hi: int)
    requires 0 <= lo <= v <= hi <= 59 && Atoi(text) == Some(v)
    requires text != "*" && '/' !in text && '-' !in text && ',' !in text
    ensures FieldStepsFit(text, lo, hi)
    ensures FieldValues(text, lo, hi) == Ok([v])
  {
    hide Atoi, Index, Split, ParseParts, FieldSets.Sorted, Visited;
    NumberPart(text, v, lo, hi);
    SplitOne(text, ',');
    ParseOnePart(text, lo, hi);
    hide ParsePart;
    OneValueVisited(v);
    FieldSets.IncreasingUnique(FieldSets.Sorted({v}), [v]);
  }

  lemma OneValueVisited(v: int)
    requires 0 <= v <= 59
    ensures GoodParts([Part(v, v, 1)], 59) && VisitedByAll([Part(v, v, 1)]) == {v}
  {
    var parts := [Part(v, v, 1)];
    assert parts[..0] == [] && VisitedByAll(parts[..0]) == {};
    assert Visited(v + 1, v, 1) == {} && Visited(v, v, 1) == {v} + Visited(v + 1, v, 1);
  }

  lemma StarField(lo: int, hi: int)
    requires 0 <= lo <= hi <= 59
    ensures FieldStepsFit("*", lo, hi) && FieldValues("*", lo, hi).Ok?
  {
    hide Atoi, Split, ParseParts, FieldSets.Sorted, Visited;
    assert '/' !in "*" && '-' !in "*";
    assert ParsePart("*", lo, hi) == Ok(Part(lo, hi, 1));
    SplitOne("*", ',');
    ParseOnePart("*", lo, hi);
  }

  lemma ZeroField()
    ensures FieldStepsFit("0", 0, 59)
    ensures FieldValues("0", 0, 59) == Ok([0])
  {
    AtoiOfDigit('0');
    NumberField("0", 0, 0, 59);
  }

  ghost predicate MonthStepsFit(expr: string) {
    var fields := Fields(expr);
    |fields| in {5, 6} && FieldStepsFit(fields[|fields| - 2], 1, 12)
  }

  /** A parsed cron schedule is well formed exactly when no field's step wraps, and then it
      fires in exactly the seconds its expression selects. The search for its next firing stays in
      the calendar, and has all it needs, exactly when no step of its months wraps or December is one
      of them; else the first of its months is far below any. */
  lemma CronMeaning(expr: string)
    ensures CronOf(expr).Ok? ==>
              && (WellFormed(CronOf(expr).value) <==> ExprStepsFit(expr))
              && (Searchable(CronOf(expr).value) <==> MonthStepsFit(expr) || 12 in CronOf(expr).value.months)
              && (StaysInCalendar(CronOf(expr).value) <==> MonthStepsFit(expr) || 12 in CronOf(expr).value.months)
              && (!MonthStepsFit(expr) ==> CronOf(expr).value.months != [] && CronOf(expr).value.months[0] <= MIN_INT64 + 59)
              && (ExprStepsFit(expr) ==> forall t :: Fires(CronOf(expr).value, t) <==> ExprSelects(expr, t))
  {
    ZeroField();
    hide FieldValues, Selects, FieldStepsFit, FieldSets.IsFieldSet, FieldSets.HasFieldSet, Second, Minute, Hour, Month, MonthStart, MonthIndex, WeekdayOfDay;
    var f := SixFields(expr);
    if CronOf(expr).Ok? {
      FieldSelects(f[0], 0, 59);
      FieldSelects(f[1], 0, 59);
      FieldSelects(f[2], 0, 23);
      FieldSelects(f[3], 1, 31);
      FieldSelects(f[4], 1, 12);
      FieldSelects(f[5], 0, 6);
      hide StaysInCalendar;
      StaysInCalendarWhen(CronOf(expr).value);
    }
  }

  // Interval expressions.

  const EVERY := "@every "

  /** The nanoseconds of a unit letter. */
  function UnitOf(unit: char): Option<int> {
    if unit == 's' then Some(NANOS_PER_SECOND)
    else if unit == 'm' then Some(60 * NANOS_PER_SECOND)
    else if unit == 'h' then Some(3600 * NANOS_PER_SECOND)
    else if unit == 'd' then Some(86400 * NANOS_PER_SECOND)
    else None
  }

  /** A product as time.Duration keeps it: its low 64 bits, signed. */
  function Wrap64(x: int): (r: int)
    ensures MIN_INT64 <= r <= MAX_INT64
    ensures r == x <==> MIN_INT64 <= x <= MAX_INT64
    ensures (x - r) % 0x1_0000_0000_0000_0000 == 0
  {
    (x - MIN_INT64) % 0x1_0000_0000_0000_0000 + MIN_INT64
  }

  /** The count and the unit of the text after "@every ". */
  function IntervalParts(text: string): (r: Result<(int, int), ParseError>)
    ensures r.Ok? ==> 1 <= r.value.0 <= MAX_INT64 && r.value.1 > 0
  {
    var raw := TrimSpace(text);
    if |raw| < 2 then Err(IntervalTooShort)
    else
      var n := Atoi(raw[..|raw| - 1]);
      var unit := UnitOf(raw[|raw| - 1]);
      if n.None? then Err(InvalidIntervalNumber)
      else if n.value <= 0 then Err(IntervalNotPositive)
      else if unit.None? then Err(UnknownUnit)
      else Ok((n.value, unit.value))
  }

  function ParseInterval(expr: string): Result<Schedule, ParseError>
    requires HasPrefix(expr, EVERY)
  {
    var parts :- IntervalParts(expr[|EVERY|..]);
    Ok(Interval(Wrap64(parts.0 * parts.1), expr))
  }

  // ParseSchedule.

  ghost function ScheduleOf(expr: string): Result<Schedule, ParseError> {
    var e := TrimSpace(expr);
    if HasPrefix(e, EVERY) then ParseInterval(e)
    else
      var c :- CronOf(e);
      Ok(Cron(c))
  }

  method ParseSchedule(expr: string) returns (r: Result<Schedule, ParseError>)
    ensures r == ScheduleOf(expr)
  {
    hide CronOf, TrimSpace;
    var e := TrimSpace(expr);
    if HasPrefix(e, EVERY) {
      return ParseInterval(e);
    }
    var c :- ParseCron(e);
    return Ok(Cron(c));
  }

  /** Storing a parsed schedule's expression and parsing it again gives the same schedule. */
  lemma StoredScheduleParsesBack(expr: string)
    ensures ScheduleOf(expr).Ok? ==> ScheduleOf(ScheduleOf(expr).value.Expr()) == ScheduleOf(expr)
  {
    TrimSpaceTrims(expr);
    TrimSpaceTrims(TrimSpace(expr));
    hide TrimSpace, FieldValues, IntervalParts;
  }

  /** A parsed interval is its count of units exactly when that many nanoseconds fit 64 bits. */
  lemma IntervalMeaning(expr: string)
    ensures ScheduleOf(expr).Ok? && ScheduleOf(expr).value.Interval? ==>
              var parts := IntervalParts(TrimSpace(expr)[|EVERY|..]);
              && parts.Ok?
              && var count := parts.value.0 * parts.value.1;
                 (ScheduleOf(expr).value.interval == count <==> count <= MAX_INT64)
  {
    hide TrimSpace, IntervalParts, CronOf;
    if ScheduleOf(expr).Ok? && ScheduleOf(expr).value.Interval? {
      var parts := IntervalParts(TrimSpace(expr)[|EVERY|..]).value;
      assert parts.0 * parts.1 > 0;
    }
  }

  // Every.

  /** int(d.Seconds()) truncates toward zero. */
  function WholeSeconds(d: int): int {
    if d < 0 then -(-d / NANOS_PER_SECOND) else d / NANOS_PER_SECOND
  }

  function Every(d: int): Schedule {
    Interval(d, EVERY + Itoa(WholeSeconds(d)) + "s")
  }

  lemma ItoaStarts(n: int)
    ensures Itoa(n) != "" && !IsSpace(Itoa(n)[0])
  {
    hide Digits;
    if n >= 0 { assert '0' <= Digits(n)[0] <= '9'; }
  }

  lemma IntervalText(n: int, unit: char)
    requires MIN_INT64 <= n <= MAX_INT64 && UnitOf(unit).Some?
    ensures IntervalParts(Itoa(n) + [unit]) == if n <= 0 then Err(IntervalNotPositive) else Ok((n, UnitOf(unit).value))
  {
    var text := Itoa(n) + [unit];
    AtoiOfItoa(n);
    ItoaStarts(n);
    hide Itoa, Atoi;
    assert Trimmed(text);
    TrimSpaceTrims(text);
    hide TrimSpace, IsSpace;
    assert text[..|text| - 1] == Itoa(n);
  }

  lemma EveryIsInterval(expr: string, rest: string)
    requires expr == EVERY + rest && Trimmed(expr)
    ensures HasPrefix(expr, EVERY) && ScheduleOf(expr) == ParseInterval(expr) && expr[|EVERY|..] == rest
  {
    TrimSpaceTrims(expr);
    hide TrimSpace, Trimmed, ParseInterval, CronOf, EVERY;
  }

  /** A count and a unit parse to their product, as 64 bits keep it. */
  lemma CountParses(n: int, unit: char)
    requires MIN_INT64 <= n <= MAX_INT64 && UnitOf(unit).Some?
    ensures var expr := EVERY + Itoa(n) + [unit];
            ScheduleOf(expr) == if n <= 0 then Err(IntervalNotPositive)
                                else Ok(Interval(Wrap64(n * UnitOf(unit).value), expr))
  {
    var expr := EVERY + Itoa(n) + [unit];
    assert unit in "smhd";
    hide Itoa, IntervalParts, Wrap64, UnitOf, ScheduleOf;
    assert Trimmed(expr);
    hide IsSpace, EVERY;
    EveryIsInterval(expr, Itoa(n) + [unit]);
    IntervalText(n, unit);
  }

  /** Space around an expression is ignored. */
  lemma SpaceAroundIsIgnored(before: string, expr: string, after: string)
    requires AllSpace(before) && AllSpace(after) && Trimmed(expr) && expr != ""
    ensures ScheduleOf(before + expr + after) == ScheduleOf(expr)
  {
    SpaceAroundIsTrimmed(before, expr, after);
    TrimSpaceTrims(expr);
    hide TrimSpace, CronOf, ParseInterval, HasPrefix;
  }

  /** So is space after "@every". */
  lemma SpaceAfterEveryIsIgnored(gap: string, text: string)
    requires AllSpace(gap) && Trimmed(text) && text != ""
    ensures var spaced, plain := ScheduleOf(EVERY + gap + text), ScheduleOf(EVERY + text);
            if plain.Err? then spaced == plain
            else spaced.Ok? && spaced.value.Interval? && plain.value.Interval? && spaced.value.interval == plain.value.interval
  {
    assert AllSpace("");
    hide *;
    SpaceAroundIsTrimmed(gap, text, "");
    TrimSpaceTrims(text);
    SameText(gap + text, text);
    Concatenated(EVERY, gap, text);
    EveryIsTrimmed(gap, text);
    EveryIsTrimmed("", text);
    EveryIsInterval(EVERY + gap + text, gap + text);
    EveryIsInterval(EVERY + text, text);
    SameInterval(EVERY + gap + text, EVERY + text);
  }

  lemma Concatenated(prefix: string, gap: string, text: string)
    ensures gap + text + "" == gap + text && prefix + gap + text == prefix + (gap + text) && prefix + "" + text == prefix + text
  {}

  lemma SameText(a: string, b: string)
    ensures TrimSpace(a) == TrimSpace(b) ==> IntervalParts(a) == IntervalParts(b)
  {
    hide TrimSpace, Atoi, UnitOf;
  }

  lemma SameInterval(a: string, b: string)
    requires HasPrefix(a, EVERY) && HasPrefix(b, EVERY)
    requires IntervalParts(a[|EVERY|..]) == IntervalParts(b[|EVERY|..])
    ensures var r, s := ParseInterval(a), ParseInterval(b);
            if s.Err? then r == s
            else r.Ok? && r.value.Interval? && s.value.Interval? && r.value.interval == s.value.interval
  {
    hide IntervalParts, Wrap64, EVERY;
  }

  lemma EveryIsTrimmed(gap: string, text: string)
    requires Trimmed(text) && text != ""
    ensures Trimmed(EVERY + gap + text)
  {
    var expr := EVERY + gap + text;
    assert !IsSpace(EVERY[0]);
    hide IsSpace;
    assert expr[|expr| - 1] == text[|text| - 1] && expr[0] == EVERY[0];
  }

  /** Seconds, minutes, hours and days; no other letter is a unit. */
  lemma UnitsAreRead(n: int, unit: char, seconds: int)
    requires 1 <= n <= MAX_INT64
    requires (unit, seconds) in {('s', 1), ('m', 60), ('h', 60 * 60), ('d', 24 * 60 * 60)}
    ensures var expr := EVERY + Itoa(n) + [unit];
            && ScheduleOf(expr) == Ok(Interval(Wrap64(n * (seconds * 1_000_000_000)), expr))
            && (n * seconds <= 9_223_372_036 ==> ScheduleOf(expr) == Ok(Interval(n * seconds * 1_000_000_000, expr)))
  {
    assert UnitOf(unit) == Some(seconds * NANOS_PER_SECOND);
    hide ScheduleOf, Itoa, EVERY;
    CountParses(n, unit);
    assert n * (seconds * 1_000_000_000) == n * seconds * 1_000_000_000;
  }

  lemma OtherUnitsAreRefused(n: int, unit: char)
    requires 1 <= n <= MAX_INT64 && unit !in "smhd" && !IsSpace(unit) && unit as int < 128
    ensures ScheduleOf(EVERY + Itoa(n) + [unit]) == Err(UnknownUnit)
  {
    var expr, text := EVERY + Itoa(n) + [unit], Itoa(n) + [unit];
    assert UnitOf(unit).None?;
    AtoiOfItoa(n);
    ItoaStarts(n);
    hide Itoa, Atoi, ScheduleOf, UnitOf;
    assert Trimmed(text) && Trimmed(expr);
    TrimSpaceTrims(text);
    hide TrimSpace, IsSpace, EVERY;
    assert text[..|text| - 1] == Itoa(n);
    EveryIsInterval(expr, text);
  }

  /** The expression of Every(d) stands for d exactly when d is positive whole seconds. */
  lemma EveryParsesBack(d: int)
    requires MIN_INT64 <= d <= MAX_INT64
    ensures ScheduleOf(Every(d).Expr()) == Ok(Every(d)) <==> d > 0 && d % NANOS_PER_SECOND == 0
  {
    CountParses(WholeSeconds(d), 's');
    hide ScheduleOf, Wrap64, Itoa;
    var n := WholeSeconds(d);
    assert d > 0 ==> d == n * NANOS_PER_SECOND + d % NANOS_PER_SECOND;
  }

  // Expressions that do not mean what they say.

  lemma SixDigits()
    ensures Itoa(106752) == "106752"
  {
    assert Digits(1) == "1";
    assert Digits(10) == "10";
    assert Digits(106) == "106";
    assert Digits(1067) == "1067";
    assert Digits(10675) == "10675";
  }

  const MANY_DAYS := 106752 * 86400 * NANOS_PER_SECOND

  lemma ManyDaysWrap()
    ensures Wrap64(MANY_DAYS) == MANY_DAYS - 0x1_0000_0000_0000_0000 < 0
  {}

  /** The witness for IntervalMeaning: 106752 days are accepted and stand for a negative interval. */
  lemma LongIntervalIsNegative()
    ensures ScheduleOf("@every 106752d") == Ok(Interval(MANY_DAYS - 0x1_0000_0000_0000_0000, "@every 106752d"))
    ensures MANY_DAYS - 0x1_0000_0000_0000_0000 < 0
  {
    SixDigits();
    CountParses(106752, 'd');
    ManyDaysWrap();
    assert UnitOf('d') == Some(86400 * NANOS_PER_SECOND);
    hide Itoa, ScheduleOf, Wrap64, UnitOf;
    LongText();
  }

  lemma LongText()
    ensures EVERY + "106752" + ['d'] == "@every 106752d"
  {}

  /** 2^55 seconds: "@every 36028797018963968s". */
  const ZERO_INTERVAL := EVERY + Itoa(36_028_797_018_963_968) + ['s']

  lemma TwoTo55Wraps()
    ensures Wrap64(36_028_797_018_963_968 * NANOS_PER_SECOND) == 0
  {}

  /** An interval may wrap to nothing, too. */
  lemma LongIntervalIsZero()
    ensures ScheduleOf(ZERO_INTERVAL) == Ok(Interval(0, ZERO_INTERVAL))
  {
    CountParses(36_028_797_018_963_968, 's');
    TwoTo55Wraps();
    assert UnitOf('s') == Some(NANOS_PER_SECOND);
    hide Itoa, ScheduleOf, Wrap64, UnitOf;
  }

  const FEBRUARY_30 := "0 0 30 2 *"

  lemma FieldsOfFebruary30()
    ensures Fields(FEBRUARY_30) == ["0", "0", "30", "2", "*"]
  {
    hide IsSpace, Fields;
    var words := ["0", "0", "30", "2", "*"];
    assert IsSpace(' ') == true && forall w :: w in words ==> IsWord(w) by { PlainWords(words); }
    FieldsOfWords(words);
    assert Join(words, ' ') == FEBRUARY_30 by { JoinFive("0", "0", "30", "2", "*"); }
  }

  lemma PlainWords(words: seq<string>)
    requires forall w :: w in words ==> w != "" && IsPlain(w)
    ensures IsSpace(' ') && forall w :: w in words ==> IsWord(w)
  {}

  lemma JoinFive(a: string, b: string, c: string, d: string, e: string)
    ensures Join([a, b, c, d, e], ' ') == a + " " + b + " " + c + " " + d + " " + e
  {
    assert [a, b, c, d, e][1..] == [b, c, d, e] && [b, c, d, e][1..] == [c, d, e];
    assert [c, d, e][1..] == [d, e] && [d, e][1..] == [e];
    assert Join([d, e], ' ') == d + " " + e;
    assert Join([c, d, e], ' ') == c + " " + d + " " + e;
    assert Join([b, c, d, e], ' ') == b + " " + c + " " + d + " " + e;
  }

  lemma February30Fields()
    ensures FieldValues("0", 0, 59) == Ok([0]) && FieldValues("0", 0, 23) == Ok([0])
    ensures FieldValues("30", 1, 31) == Ok([30]) && FieldValues("2", 1, 12) == Ok([2]) && FieldValues("*", 0, 6).Ok?
    ensures FieldStepsFit("2", 1, 12)
  {
    AtoiOfDigit('0');
    AtoiOfDigit('2');
    assert Atoi("30") == Some(30) by {
      assert Digits(3) == "3" && Itoa(30) == "30";
      AtoiOfItoa(30);
    }
    hide Atoi, FieldValues, FieldStepsFit;
    NumberField("0", 0, 0, 59);
    NumberField("0", 0, 0, 23);
    NumberField("30", 30, 1, 31);
    NumberField("2", 2, 1, 12);
    StarField(0, 6);
  }

  lemma February30Parses()
    ensures CronOf(FEBRUARY_30).Ok?
    ensures CronOf(FEBRUARY_30).value.days == [30] && CronOf(FEBRUARY_30).value.months == [2]
    ensures MonthStepsFit(FEBRUARY_30)
  {
    FieldsOfFebruary30();
    February30Fields();
    hide FieldValues, FieldStepsFit, Fields;
  }

  lemma TrimmedCronText(expr: string)
    requires Trimmed(expr) && !HasPrefix(expr, EVERY) && CronOf(expr).Ok?
    ensures ScheduleOf(expr) == Ok(Cron(CronOf(expr).value))
  {
    TrimSpaceTrims(expr);
    hide TrimSpace, CronOf, Trimmed;
  }

  lemma NoFebruary30(c: CronSchedule)
    requires c.days == [30] && c.months == [2]
    ensures !Satisfiable(c)
  {}

  /** The witness for a schedule that never fires: midnight on 30 February is accepted. */
  lemma February30NeverFires()
    ensures var r := ScheduleOf(FEBRUARY_30);
            r.Ok? && r.value.Cron? && Searchable(r.value.cron) && !Satisfiable(r.value.cron)
  {
    assert Trimmed(FEBRUARY_30) && !HasPrefix(FEBRUARY_30, EVERY);
    hide *;
    February30Parses();
    TrimmedCronText(FEBRUARY_30);
    CronMeaning(FEBRUARY_30);
    NoFebruary30(CronOf(FEBRUARY_30).value);
  }

  /** "0 0 1 5/9223372036854775807 *". */
  const WRAPPED_MONTHS := "0 0 1 " + WRAPPING_FIELD + " *"

  /** "0 0 1 12,5/9223372036854775807 *". */
  const WRAPPED_WITH_DECEMBER := "0 0 1 " + DECEMBER_AND_WRAPPING + " *"

  lemma FieldsOfMonthly(months: string)
    requires months != "" && IsPlain(months)
    ensures Fields("0 0 1 " + months + " *") == ["0", "0", "1", months, "*"]
  {
    var words := ["0", "0", "1", months, "*"];
    PlainWords(words);
    hide IsSpace, Fields, IsWord;
    FieldsOfWords(words);
    JoinFive("0", "0", "1", months, "*");
    assert "0" + " " + "0" + " " + "1" + " " == "0 0 1 ";
    assert "0 0 1 " + months + " " + "*" == "0 0 1 " + months + " *";
  }

  lemma FirstOfMonth()
    ensures FieldValues("0", 0, 59).Ok? && FieldValues("0", 0, 23).Ok? && FieldValues("1", 1, 31).Ok? && FieldValues("*", 0, 6).Ok?
  {
    AtoiOfDigit('0');
    AtoiOfDigit('1');
    hide Atoi, FieldValues, FieldStepsFit;
    NumberField("0", 0, 0, 59);
    NumberField("0", 0, 0, 23);
    NumberField("1", 1, 1, 31);
    StarField(0, 6);
  }

  lemma MonthlyParses(expr: string, months: string)
    requires Fields(expr) == ["0", "0", "1", months, "*"] && FieldValues(months, 1, 12).Ok?
    ensures CronOf(expr).Ok? && CronOf(expr).value.months == FieldValues(months, 1, 12).value
    ensures MonthStepsFit(expr) <==> FieldStepsFit(months, 1, 12)
  {
    FirstOfMonth();
    hide FieldValues, FieldStepsFit, Fields;
  }

  lemma WrappedPartsDoNotFit(parts: seq<Part>)
    requires Part(5, 5, MAX_INT64) in parts
    ensures !StepsFit(parts)
  {
    assert !StepFits(Part(5, 5, MAX_INT64));
  }

  /** The witness for a search that leaves the calendar: the first day of months that wrap is
      accepted, and from any moment in December the search asks for a month far below January. */
  lemma WrappedMonthsLeaveCalendar(candidate: int)
    requires Month(candidate) == 12
    ensures var r := CronOf(WRAPPED_MONTHS);
            r.Ok? && r.value.months != [] && r.value.months[0] <= MIN_INT64 + 59
            && AsksForMonth(r.value, candidate, r.value.months[0]) && !StaysInCalendar(r.value)
  {
    WrappingMonths();
    WrappingFieldText();
    hide Month, FieldValues, ParseParts, Split, Fields, IsPlain, WRAPPING_FIELD;
    FieldsOfMonthly(WRAPPING_FIELD);
    MonthlyParses(WRAPPED_MONTHS, WRAPPING_FIELD);
    WrappedPartsDoNotFit([Part(5, 5, MAX_INT64)]);
    CronMeaning(WRAPPED_MONTHS);
    FieldMeaning(WRAPPING_FIELD, 1, 12);
    hide CronOf, StepsFit, StaysInCalendar, Searchable;
    DecemberAsksForFirst(CronOf(WRAPPED_MONTHS).value, candidate);
  }

  /** And for one that does not, although the same step wraps: December is among the months. */
  lemma DecemberKeepsSearchSafe()
    ensures var r := CronOf(WRAPPED_WITH_DECEMBER);
            r.Ok? && !MonthStepsFit(WRAPPED_WITH_DECEMBER) && Searchable(r.value) && StaysInCalendar(r.value)
  {
    DecemberAndWrappingMonths();
    WrappingFieldText();
    hide FieldValues, ParseParts, Split, Fields, IsPlain, DECEMBER_AND_WRAPPING;
    FieldsOfMonthly(DECEMBER_AND_WRAPPING);
    MonthlyParses(WRAPPED_WITH_DECEMBER, DECEMBER_AND_WRAPPING);
    WrappedPartsDoNotFit([Part(12, 12, 1), Part(5, 5, MAX_INT64)]);
    hide CronOf, StepsFit, StaysInCalendar, Searchable;
    CronMeaning(WRAPPED_WITH_DECEMBER);
  }
}
