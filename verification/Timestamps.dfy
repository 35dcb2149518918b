/** The two text layouts of instants, and how their order as text agrees with time.

    Instants are nanoseconds since 0001-01-01T00:00:00Z. Text is compared byte by byte, as
    SQLite compares TEXT columns; every character here is ASCII. */
module Timestamps {
  import opened Arithmetic
  import opened Calendar
  import opened TextOrder
  import Text

  const NANOS_PER_MILLI := 1_000_000

  // Numbers in a fixed width.

  function DigitChar(n: nat): char
    requires n < 10
  {
    ('0' as int + n) as char
  }

  /** n in decimal, padded with zeros to the width. */
  function Pad(n: nat, width: nat): (s: string)
    ensures |s| == width
    ensures forall i :: 0 <= i < width ==> '0' <= s[i] <= '9'
  {
    if width == 0 then "" else Pad(n / 10, width - 1) + [DigitChar(n % 10)]
  }

  lemma {:induction false} PadOrder(m: nat, n: nat, width: nat)
    requires m < Pow10(width) && n < Pow10(width)
    ensures Less(Pad(m, width), Pad(n, width)) <==> m < n
    ensures Pad(m, width) == Pad(n, width) <==> m == n
  {
    if width == 0 {
      LessTrichotomy("", "");
    } else {
      PadOrder(m / 10, n / 10, width - 1);
      var a, b := Pad(m / 10, width - 1), Pad(n / 10, width - 1);
      var x, y := [DigitChar(m % 10)], [DigitChar(n % 10)];
      LessInBlocks(a, b, x, y);
      assert Less(x, y) <==> m % 10 < n % 10;
      assert (a + x)[..width - 1] == a && (b + y)[..width - 1] == b;
      assert (a + x)[width - 1] == x[0] && (b + y)[width - 1] == y[0];
      hide Pow10;
    }
  }

  // Records of numbers in fixed widths, each followed by its separator.

  function Encode(values: seq<nat>, layout: seq<(nat, string)>): string
    requires |values| == |layout|
  {
    if values == [] then ""
    else Pad(values[0], layout[0].0) + (layout[0].1 + Encode(values[1..], layout[1..]))
  }

  predicate Fits(values: seq<nat>, layout: seq<(nat, string)>) {
    |values| == |layout| && forall i :: 0 <= i < |values| ==> values[i] < Pow10(layout[i].0)
  }

  predicate LexLess(a: seq<nat>, b: seq<nat>)
    requires |a| == |b|
  {
    a != [] && (a[0] < b[0] || (a[0] == b[0] && LexLess(a[1..], b[1..])))
  }

  lemma {:induction false} EncodeOrder(a: seq<nat>, b: seq<nat>, layout: seq<(nat, string)>)
    requires Fits(a, layout) && Fits(b, layout)
    ensures |Encode(a, layout)| == |Encode(b, layout)|
    ensures Less(Encode(a, layout), Encode(b, layout)) <==> LexLess(a, b)
    ensures Encode(a, layout) == Encode(b, layout) <==> a == b
  {
    hide Pow10;
    if a == [] {
      LessTrichotomy("", "");
    } else {
      var width, sep := layout[0].0, layout[0].1;
      var p, q := Pad(a[0], width), Pad(b[0], width);
      var x, y := Encode(a[1..], layout[1..]), Encode(b[1..], layout[1..]);
      EncodeOrder(a[1..], b[1..], layout[1..]);
      PadOrder(a[0], b[0], width);
      LessInBlocks(p, q, sep + x, sep + y);
      LessInBlocks(sep, sep, x, y);
      LessTrichotomy(sep, sep);
      assert a == [a[0]] + a[1..] && b == [b[0]] + b[1..];
      assert (p + (sep + x))[..width] == p && (q + (sep + y))[..width] == q;
      assert (p + (sep + x))[width..] == sep + x && (q + (sep + y))[width..] == sep + y;
      assert (sep + x)[|sep|..] == x && (sep + y)[|sep|..] == y;
    }
  }

  // The fields of an instant, in order.

  /** From 0000-01-01T00:00:00Z on and before 10000-01-01T00:00:00Z: years of four digits. */
  predicate FourDigitYear(second: int) {
    -366 * SECONDS_PER_DAY <= second < 3652059 * SECONDS_PER_DAY
  }

  lemma FourDigitBounds()
    ensures MonthStart(0) == -366 && MonthStart(120000) == 3652059
  {}

  lemma FourDigits(second: int)
    ensures FourDigitYear(second) <==> 0 <= Year(second) <= 9999
  {
    hide MonthStart, MonthIndex, DaysInMonth, YearStart, DaysBeforeMonth;
    FourDigitBounds();
    var index := MonthIndex(DayOf(second));
    if index + 1 < 0 { MonthStartMonotone(index + 1, 0); }
    if 0 < index { MonthStartMonotone(0, index); }
    if index + 1 < 120000 { MonthStartMonotone(index + 1, 120000); }
    if 120000 < index { MonthStartMonotone(120000, index); }
  }

  function SecondFields(second: int): (fields: seq<nat>)
    requires FourDigitYear(second)
    ensures |fields| == 6
  {
    FourDigits(second);
    DateOfFields(second);
    [Year(second), Month(second), Day(second), Hour(second), Minute(second), Second(second)]
  }

  lemma DaysInOrder(t: int, u: int)
    requires DayOf(t) < DayOf(u)
    ensures Year(t) < Year(u) || (Year(t) == Year(u) && (Month(t) < Month(u) || (Month(t) == Month(u) && Day(t) < Day(u))))
  {
    hide MonthStart, MonthIndex;
    var i, j := MonthIndex(DayOf(t)), MonthIndex(DayOf(u));
    if j < i {
      if j + 1 < i { MonthStartMonotone(j + 1, i); }
      assert false;
    }
  }

  lemma ClockInOrder(t: int, u: int)
    requires t < u && DayOf(t) == DayOf(u)
    ensures Hour(t) < Hour(u) || (Hour(t) == Hour(u) && (Minute(t) < Minute(u) || (Minute(t) == Minute(u) && Second(t) < Second(u))))
  {
    ClockOfInstant(t);
    ClockOfInstant(u);
    hide Hour, Minute, Second;
  }

  lemma LexOfSix(a: seq<nat>, b: seq<nat>)
    requires |a| == |b| == 6
    ensures LexLess(a, b) <==>
              (a[0] < b[0] || (a[0] == b[0] && (a[1] < b[1] || (a[1] == b[1] && (a[2] < b[2] || (a[2] == b[2] &&
              (a[3] < b[3] || (a[3] == b[3] && (a[4] < b[4] || (a[4] == b[4] && a[5] < b[5]))))))))))
  {
    assert LexLess(a, b) <==> a[0] < b[0] || (a[0] == b[0] && LexLess(a[1..], b[1..]));
    assert LexLess(a[1..], b[1..]) <==> a[1] < b[1] || (a[1] == b[1] && LexLess(a[2..], b[2..])) by {
      assert a[1..][1..] == a[2..] && b[1..][1..] == b[2..];
    }
    assert LexLess(a[2..], b[2..]) <==> a[2] < b[2] || (a[2] == b[2] && LexLess(a[3..], b[3..])) by {
      assert a[2..][1..] == a[3..] && b[2..][1..] == b[3..];
    }
    assert LexLess(a[3..], b[3..]) <==> a[3] < b[3] || (a[3] == b[3] && LexLess(a[4..], b[4..])) by {
      assert a[3..][1..] == a[4..] && b[3..][1..] == b[4..];
    }
    assert LexLess(a[4..], b[4..]) <==> a[4] < b[4] || (a[4] == b[4] && LexLess(a[5..], b[5..])) by {
      assert a[4..][1..] == a[5..] && b[4..][1..] == b[5..];
    }
    assert LexLess(a[5..], b[5..]) <==> a[5] < b[5] by {
      assert a[5..][1..] == [] && b[5..][1..] == [];
    }
  }

  lemma EarlierFieldsAreLess(t: int, u: int)
    requires FourDigitYear(t) && FourDigitYear(u) && t < u
    ensures LexLess(SecondFields(t), SecondFields(u))
  {
    LexOfSix(SecondFields(t), SecondFields(u));
    hide Year, Month, Day, Hour, Minute, Second, LexLess;
    if DayOf(t) < DayOf(u) {
      DaysInOrder(t, u);
    } else {
      SameDay(t, u);
      ClockInOrder(t, u);
    }
  }

  lemma SameDay(t: int, u: int)
    requires DayOf(t) == DayOf(u)
    ensures Year(t) == Year(u) && Month(t) == Month(u) && Day(t) == Day(u)
  {}

  /** Reading the fields from the year down orders seconds as time does. */
  lemma FieldsInOrder(t: int, u: int)
    requires FourDigitYear(t) && FourDigitYear(u)
    ensures LexLess(SecondFields(t), SecondFields(u)) <==> t < u
    ensures SecondFields(t) == SecondFields(u) <==> t == u
  {
    hide SecondFields, FourDigitYear;
    if t < u {
      EarlierFieldsAreLess(t, u);
      LexNotBoth(SecondFields(t), SecondFields(u));
    } else if u < t {
      EarlierFieldsAreLess(u, t);
      LexNotBoth(SecondFields(u), SecondFields(t));
    } else {
      LexNotBoth(SecondFields(t), SecondFields(t));
    }
  }

  lemma {:induction false} LexNotBoth(a: seq<nat>, b: seq<nat>)
    requires |a| == |b|
    ensures !(LexLess(a, b) && LexLess(b, a)) && !LexLess(a, a)
  {
    if a == [] {
    } else {
      LexNotBoth(a[1..], b[1..]);
    }
  }

  // The layouts.

  const SECOND_LAYOUT: seq<(nat, string)> := [(4, "-"), (2, "-"), (2, "T"), (2, ":"), (2, ":"), (2, "")]

  /** "2006-01-02T15:04:05". */
  function FormatSecond(second: int): string
    requires FourDigitYear(second)
  {
    Encode(SecondFields(second), SECOND_LAYOUT)
  }

  lemma EncodeStep(values: seq<nat>, layout: seq<(nat, string)>)
    requires values != [] && |values| == |layout|
    ensures Encode(values, layout) == Pad(values[0], layout[0].0) + layout[0].1 + Encode(values[1..], layout[1..])
  {
    hide Pad;
  }

  /** The text of a date and time, field by field. */
  lemma SecondText(y: nat, m: nat, d: nat, hour: nat, minute: nat, second: nat)
    requires y <= 9999 && 1 <= m <= 12 && 1 <= d <= DaysInMonth(y, m) && hour < 24 && minute < 60 && second < 60
    ensures var t := Date(y, m, d, hour, minute, second);
            && FourDigitYear(t)
            && FormatSecond(t) == Pad(y, 4) + "-" + Pad(m, 2) + "-" + Pad(d, 2) + "T"
                                  + Pad(hour, 2) + ":" + Pad(minute, 2) + ":" + Pad(second, 2)
  {
    FieldsOfDate(y, m, d, hour, minute, second);
    FourDigits(Date(y, m, d, hour, minute, second));
    hide Year, Month, Day, Hour, Minute, Second, Date, FourDigitYear;
    SixValues([y, m, d, hour, minute, second]);
  }

  lemma SixValues(v: seq<nat>)
    requires |v| == 6
    ensures Encode(v, SECOND_LAYOUT) == Pad(v[0], 4) + "-" + Pad(v[1], 2) + "-" + Pad(v[2], 2) + "T"
                                        + Pad(v[3], 2) + ":" + Pad(v[4], 2) + ":" + Pad(v[5], 2)
  {
    EncodeStep(v, SECOND_LAYOUT);
    EncodeStep(v[1..], SECOND_LAYOUT[1..]);
    EncodeStep(v[2..], SECOND_LAYOUT[2..]);
    EncodeStep(v[3..], SECOND_LAYOUT[3..]);
    EncodeStep(v[4..], SECOND_LAYOUT[4..]);
    EncodeStep(v[5..], SECOND_LAYOUT[5..]);
    assert Encode(v[6..], SECOND_LAYOUT[6..]) == "";
    hide Encode, Pad;
    assert v[1..][1..] == v[2..] && v[2..][1..] == v[3..] && v[3..][1..] == v[4..] && v[4..][1..] == v[5..] && v[5..][1..] == v[6..];
    Nested(Pad(v[0], 4), Pad(v[1], 2), Pad(v[2], 2), Pad(v[3], 2), Pad(v[4], 2), Pad(v[5], 2));
  }

  lemma Nested(a: string, b: string, c: string, d: string, e: string, f: string)
    ensures a + "-" + (b + "-" + (c + "T" + (d + ":" + (e + ":" + (f + "" + "")))))
            == a + "-" + b + "-" + c + "T" + d + ":" + e + ":" + f
  {
    assert f + "" + "" == f;
    assert e + ":" + f == e + (":" + f);
    assert d + ":" + (e + ":" + f) == d + ":" + e + ":" + f;
    assert c + "T" + (d + ":" + e + ":" + f) == c + "T" + d + ":" + e + ":" + f;
    assert b + "-" + (c + "T" + d + ":" + e + ":" + f) == b + "-" + c + "T" + d + ":" + e + ":" + f;
  }

  lemma SecondFieldsFit(second: int)
    requires FourDigitYear(second)
    ensures Fits(SecondFields(second), SECOND_LAYOUT)
  {
    FourDigits(second);
    DateOfFields(second);
    hide Year, Month, Day, Hour, Minute, Second;
    assert Pow10(4) == 10000 && Pow10(2) == 100;
  }

  lemma SecondTextOrder(t: int, u: int)
    requires FourDigitYear(t) && FourDigitYear(u)
    ensures |FormatSecond(t)| == |FormatSecond(u)|
    ensures Less(FormatSecond(t), FormatSecond(u)) <==> t < u
    ensures FormatSecond(t) == FormatSecond(u) <==> t == u
  {
    SecondFieldsFit(t);
    SecondFieldsFit(u);
    hide SecondFields, Fits;
    EncodeOrder(SecondFields(t), SecondFields(u), SECOND_LAYOUT);
    FieldsInOrder(t, u);
  }

  predicate Printable(t: int) {
    FourDigitYear(t / NANOS_PER_SECOND)
  }

  /** The layout of now and nowPlus, "2006-01-02T15:04:05.000Z". */
  function FormatMillis(t: int): string
    requires Printable(t)
  {
    FormatSecond(t / NANOS_PER_SECOND) + ("." + Pad(t % NANOS_PER_SECOND / NANOS_PER_MILLI, 3) + "Z")
  }

  /** The text of an instant in the fixed layout, field by field. */
  lemma MillisText(t: int, y: nat, m: nat, d: nat, hour: nat, minute: nat, second: nat, milli: nat)
    requires y <= 9999 && 1 <= m <= 12 && 1 <= d <= DaysInMonth(y, m) && hour < 24 && minute < 60 && second < 60
    requires t / NANOS_PER_SECOND == Date(y, m, d, hour, minute, second)
    requires t % NANOS_PER_SECOND / NANOS_PER_MILLI == milli
    ensures Printable(t)
    ensures FormatMillis(t) == Pad(y, 4) + "-" + Pad(m, 2) + "-" + Pad(d, 2) + "T"
                               + Pad(hour, 2) + ":" + Pad(minute, 2) + ":" + Pad(second, 2) + "." + Pad(milli, 3) + "Z"
  {
    SecondText(y, m, d, hour, minute, second);
    hide FormatSecond, FormatMillis, Date, Pad, FourDigitYear, DaysInMonth, Printable;
    MillisTextOf(t, Date(y, m, d, hour, minute, second), milli);
  }

  lemma MillisTextOf(t: int, date: int, milli: nat)
    requires t / NANOS_PER_SECOND == date && t % NANOS_PER_SECOND / NANOS_PER_MILLI == milli && FourDigitYear(date)
    ensures Printable(t) && FormatMillis(t) == FormatSecond(date) + "." + Pad(milli, 3) + "Z"
  {
    hide FormatSecond, Pad, FourDigitYear;
    var a, p := FormatSecond(date), Pad(milli, 3);
    assert a + ("." + p + "Z") == a + "." + p + "Z";
  }

  /** Fixed-width timestamps order exactly as instants truncated to the millisecond. */
  lemma MillisTextOrder(t: int, u: int)
    requires Printable(t) && Printable(u)
    ensures Less(FormatMillis(t), FormatMillis(u)) <==> t / NANOS_PER_MILLI < u / NANOS_PER_MILLI
    ensures FormatMillis(t) == FormatMillis(u) <==> t / NANOS_PER_MILLI == u / NANOS_PER_MILLI
  {
    var m, n := t % NANOS_PER_SECOND / NANOS_PER_MILLI, u % NANOS_PER_SECOND / NANOS_PER_MILLI;
    var a, b := FormatSecond(t / NANOS_PER_SECOND), FormatSecond(u / NANOS_PER_SECOND);
    MillisOfInstant(t);
    MillisOfInstant(u);
    SecondTextOrder(t / NANOS_PER_SECOND, u / NANOS_PER_SECOND);
    hide FormatSecond, Printable, FourDigitYear;
    assert Pow10(3) == 1000;
    PadOrder(m, n, 3);
    hide Pad, Pow10, Less;
    var x, y := "." + Pad(m, 3) + "Z", "." + Pad(n, 3) + "Z";
    LessInBlocks(a, b, x, y);
    LessInBlocks("." + Pad(m, 3), "." + Pad(n, 3), "Z", "Z");
    LessInBlocks(".", ".", Pad(m, 3), Pad(n, 3));
    LessTrichotomy(".", ".");
    LessTrichotomy("Z", "Z");
    assert (a + x)[..|a|] == a && (b + y)[..|a|] == b && (a + x)[|a|..] == x && (b + y)[|a|..] == y;
    assert x[1..4] == Pad(m, 3) && y[1..4] == Pad(n, 3);
  }

  lemma MillisOfInstant(t: int)
    ensures t / NANOS_PER_MILLI == 1000 * (t / NANOS_PER_SECOND) + t % NANOS_PER_SECOND / NANOS_PER_MILLI
    ensures 0 <= t % NANOS_PER_SECOND / NANOS_PER_MILLI < 1000
  {
    var s, f := t / NANOS_PER_SECOND, t % NANOS_PER_SECOND;
    DivMod(NANOS_PER_MILLI, 1000 * s + f / NANOS_PER_MILLI, f % NANOS_PER_MILLI);
  }

  // time.RFC3339Nano: the fraction without its trailing zeros, none at all for whole seconds.

  function TrimZeros(s: string): (r: string)
    ensures r <= s
    ensures forall i :: |r| <= i < |s| ==> s[i] == '0'
    ensures r == "" || r[|r| - 1] != '0'
  {
    if s != "" && s[|s| - 1] == '0' then TrimZeros(s[..|s| - 1]) else s
  }

  function Fraction(nanos: nat): string
    requires nanos < NANOS_PER_SECOND
  {
    if nanos == 0 then "" else "." + TrimZeros(Pad(nanos, 9))
  }

  function FormatNano(t: int): string
    requires Printable(t)
  {
    FormatSecond(t / NANOS_PER_SECOND) + (Fraction(t % NANOS_PER_SECOND) + "Z")
  }

  /** The year of time.RFC3339Nano: four digits at least, with a sign before the year 0. */
  function YearText(year: int): (s: string)
    ensures s != ""
  {
    if year < 0 then "-" + AtLeastFour(-year) else AtLeastFour(year)
  }

  function AtLeastFour(n: nat): (s: string)
    ensures s != ""
  {
    if n < 10000 then Pad(n, 4) else Text.Itoa(n)
  }

  function LaterFields(second: int): (fields: seq<nat>)
    ensures |fields| == 5
  {
    DateOfFields(second);
    [Month(second), Day(second), Hour(second), Minute(second), Second(second)]
  }

  /** time.RFC3339Nano in any year. */
  function FormatTime(t: int): string {
    var second := t / NANOS_PER_SECOND;
    YearText(Year(second)) + ("-" + Encode(LaterFields(second), SECOND_LAYOUT[1..]))
    + (Fraction(t % NANOS_PER_SECOND) + "Z")
  }

  lemma YearComesFirst(t: int)
    ensures FormatTime(t) != "" && FormatTime(t)[0] == YearText(Year(t / NANOS_PER_SECOND))[0]
  {
    hide Year, YearText, Encode, Fraction, LaterFields;
  }

  lemma LeadingDigit(year: nat)
    requires 2000 <= year < 10000
    ensures YearText(year)[0] >= '2'
  {
    var hundreds := Pad(year / 10 / 10, 2);
    assert hundreds[0] == Pad(year / 10 / 10 / 10, 1)[0];
    assert Pad(year / 10 / 10 / 10, 1)[0] == DigitChar(year / 10 / 10 / 10 % 10);
    assert Pad(year / 10, 3)[0] == hundreds[0];
    assert Pad(year, 4)[0] == Pad(year / 10, 3)[0];
  }

  lemma LeadingDigitOf10000()
    ensures YearText(10000)[0] == '1'
  {
    assert Text.Digits(1)[0] == '1';
    assert Text.Digits(10)[0] == '1';
    assert Text.Digits(100)[0] == '1';
    assert Text.Digits(1000)[0] == '1';
  }

  /** What time.Parse reads from FormatTime(t): t itself, or an error for a year that has not four
      digits, for which the caller goes on with a value of its own. */
  function ReadBack(t: int, otherwise: int): int {
    if Printable(t) then t else otherwise
  }

  lemma FormatTimeIsNano(t: int)
    requires Printable(t)
    ensures FormatTime(t) == FormatNano(t)
  {
    var second := t / NANOS_PER_SECOND;
    FourDigits(second);
    assert SecondFields(second)[1..] == LaterFields(second);
    hide Year, Month, Day, Hour, Minute, Second, LaterFields, SecondFields, Fraction;
  }

  /** Zero-padded digits that differ first at i, a before b: the trimmed digits of a are a
      proper prefix of b's, or they differ at i as well. */
  lemma TrimmedDigits(a: string, b: string, i: nat)
    requires |a| == |b| && LessAt(a, b, i)
    requires '0' <= a[i] && TrimZeros(b) != ""
    ensures TrimZeros(a) != TrimZeros(b)
    ensures TrimZeros(a) <= TrimZeros(b) || (i < |TrimZeros(a)| && LessAt(TrimZeros(a), TrimZeros(b), i))
  {
    var x, y := TrimZeros(a), TrimZeros(b);
    assert i < |y| by { assert b[i] != '0'; }
    assert forall k :: 0 <= k < |x| ==> x[k] == a[k];
    assert forall k :: 0 <= k < |y| ==> y[k] == b[k];
    hide TrimZeros;
    PrefixesDiverge(a, b, x, y, i);
  }

  lemma PrefixesDiverge(a: string, b: string, x: string, y: string, i: nat)
    requires |a| == |b| && LessAt(a, b, i)
    requires |x| <= |a| && |y| <= |b| && i < |y|
    requires forall k :: 0 <= k < |x| ==> x[k] == a[k]
    requires forall k :: 0 <= k < |y| ==> y[k] == b[k]
    ensures x != y
    ensures x <= y || (i < |x| && LessAt(x, y, i))
  {
    if i < |x| {
      assert x[i] < y[i];
    }
  }

  lemma TrimZerosOfNonZero(n: nat, width: nat)
    requires 0 < n < Pow10(width)
    ensures TrimZeros(Pad(n, width)) != ""
  {
    PadOrder(0, n, width);
    var i := LessHasIndex(Pad(0, width), Pad(n, width));
    PadZero(width);
    assert Pad(n, width)[i] > '0';
  }

  lemma {:induction false} PadZero(width: nat)
    ensures forall i :: 0 <= i < width ==> Pad(0, width)[i] == '0'
  {
    if width == 0 {
    } else {
      PadZero(width - 1);
    }
  }

  lemma PrefixComesAfter(x: string, y: string)
    requires x < y && y[|x|] < 'Z'
    ensures Less(y + "Z", x + "Z")
  {
    IndexMakesLess(y + "Z", x + "Z", |x|);
  }

  lemma DivergenceStays(x: string, y: string, i: nat)
    requires LessAt(x, y, i) && i < |x|
    ensures Less(x + "Z", y + "Z")
  {
    IndexMakesLess(x + "Z", y + "Z", i);
  }

  /** Within a second, the earlier of two fractions comes first as text unless it is a prefix of
      the later one: the closing Z sorts after every digit and after the point. */
  lemma FractionOrder(f: nat, g: nat)
    requires f < g < NANOS_PER_SECOND
    ensures Fraction(f) != Fraction(g)
    ensures Less(Fraction(f) + "Z", Fraction(g) + "Z") <==> !(Fraction(f) <= Fraction(g))
  {
    assert Pow10(9) == NANOS_PER_SECOND;
    TrimZerosOfNonZero(g, 9);
    var x, y := Fraction(f), Fraction(g);
    if f == 0 {
      hide TrimZeros, Pad;
      PrefixComesAfter(x, y);
      LessTrichotomy(x + "Z", y + "Z");
    } else {
      var a, b := Pad(f, 9), Pad(g, 9);
      PadOrder(f, g, 9);
      var i := LessHasIndex(a, b);
      TrimmedDigits(a, b, i);
      NonZeroFractions(f, g, i);
    }
  }

  lemma NonZeroFractions(f: nat, g: nat, i: nat)
    requires 0 < f < g < NANOS_PER_SECOND
    requires var p, q := TrimZeros(Pad(f, 9)), TrimZeros(Pad(g, 9));
             p != q && (p <= q || (i < |p| && LessAt(p, q, i)))
    ensures Fraction(f) != Fraction(g)
    ensures Less(Fraction(f) + "Z", Fraction(g) + "Z") <==> !(Fraction(f) <= Fraction(g))
  {
    var p, q := TrimZeros(Pad(f, 9)), TrimZeros(Pad(g, 9));
    assert forall k :: 0 <= k < |q| ==> '0' <= q[k] <= '9';
    assert Fraction(f) == "." + p && Fraction(g) == "." + q;
    hide TrimZeros, Fraction;
    PointedOrder(p, q, i);
  }

  lemma PointedOrder(p: string, q: string, i: nat)
    requires p != q && (p <= q || (i < |p| && LessAt(p, q, i)))
    requires forall k :: 0 <= k < |q| ==> '0' <= q[k] <= '9'
    ensures "." + p != "." + q
    ensures Less("." + p + "Z", "." + q + "Z") <==> !("." + p <= "." + q)
  {
    var x, y := "." + p, "." + q;
    hide Less;
    assert x[1..] == p && y[1..] == q;
    if p <= q {
      assert x <= y;
      PrefixComesAfter(x, y);
      LessTrichotomy(x + "Z", y + "Z");
    } else {
      assert x[i + 1] == p[i] && y[i + 1] == q[i];
      DivergenceStays(x, y, i + 1);
    }
  }

  predicate SameSecond(t: int, u: int) {
    t / NANOS_PER_SECOND == u / NANOS_PER_SECOND
  }

  function FractionOf(t: int): string {
    Fraction(t % NANOS_PER_SECOND)
  }

  /** RFC3339Nano text agrees with time whenever the whole seconds differ; within one second it
      agrees exactly when the earlier fraction is not a prefix of the later one. */
  lemma NanoTextOrder(t: int, u: int)
    requires Printable(t) && Printable(u)
    ensures FormatNano(t) == FormatNano(u) <==> t == u
    ensures t < u ==> (Less(FormatNano(t), FormatNano(u)) <==> !SameSecond(t, u) || !(FractionOf(t) <= FractionOf(u)))
  {
    var a, b := FormatSecond(t / NANOS_PER_SECOND), FormatSecond(u / NANOS_PER_SECOND);
    var f, g := t % NANOS_PER_SECOND, u % NANOS_PER_SECOND;
    SecondTextOrder(t / NANOS_PER_SECOND, u / NANOS_PER_SECOND);
    hide FormatSecond, Printable, Fraction, Less;
    var x, y := Fraction(f) + "Z", Fraction(g) + "Z";
    LessInBlocks(a, b, x, y);
    assert (a + x)[..|a|] == a && (b + y)[..|a|] == b && (a + x)[|a|..] == x && (b + y)[|a|..] == y;
    assert x[..|x| - 1] == Fraction(f) && y[..|y| - 1] == Fraction(g);
    if f < g { FractionOrder(f, g); }
    if g < f { FractionOrder(g, f); }
  }

  // Both layouts in one comparison: a job that a tick enqueued has RFC3339Nano text, and the queue
  // compares it with the fixed layout.

  function MillisOf(t: int): string {
    "." + Pad(t % NANOS_PER_SECOND / NANOS_PER_MILLI, 3)
  }

  /** n without its last k digits. */
  function Leading(n: nat, k: nat): nat {
    if k == 0 then n else Leading(n / 10, k - 1)
  }

  lemma {:induction false} PadPrefix(n: nat, width: nat, k: nat)
    requires k <= width
    ensures Pad(n, width)[..width - k] == Pad(Leading(n, k), width - k)
  {
    if k == 0 {
    } else {
      PadPrefix(n / 10, width - 1, k - 1);
    }
  }

  lemma LeadingMillis(n: nat)
    ensures Leading(n, 6) == n / NANOS_PER_MILLI
  {
    ThreeDigits(n, 6);
    ThreeDigits(n / 1000, 3);
  }

  lemma ThreeDigits(n: nat, k: nat)
    requires k >= 3
    ensures Leading(n, k) == Leading(n / 1000, k - 3) && Leading(n, 0) == n
  {
    assert Leading(n / 10, k - 1) == Leading(n / 10 / 10, k - 2) == Leading(n / 10 / 10 / 10, k - 3);
    assert n / 10 / 10 / 10 == n / 1000;
  }

  /** p without its trailing zeros, and three digits: text order against the order of the digits. */
  lemma TrimmedAgainstThree(p: string, m: string)
    requires |p| == 9 && |m| == 3 && TrimZeros(p) != ""
    requires forall k :: 0 <= k < 9 ==> '0' <= p[k] <= '9'
    requires forall k :: 0 <= k < 3 ==> '0' <= m[k] <= '9'
    ensures var x := TrimZeros(p);
            && (AtMost(x + "Z", m + "Z") <==> !Less(m, p[..3]) && !(x < m))
            && (x + "Z" == m + "Z" <==> x == m)
  {
    var x, q := TrimZeros(p), p[..3];
    assert forall k :: 0 <= k < |x| ==> x[k] == p[k];
    assert forall k :: |x| <= k < 9 ==> p[k] == '0';
    hide TrimZeros, Less;
    assert (x + "Z")[..|x|] == x && (m + "Z")[..3] == m;
    LessTrichotomy(q, m);
    LessTrichotomy(x + "Z", m + "Z");
    if Less(q, m) {
      var i := LessHasIndex(q, m);
      if i < |x| { DivergenceStays(x, m, i); } else { ProperPrefix(x, m); }
    } else if Less(m, q) {
      var i := LessHasIndex(m, q);
      assert i < |x|;
      DivergenceStays(m, x, i);
    } else if |x| < 3 {
      ProperPrefix(x, m);
    } else if |x| > 3 {
      ProperPrefix(m, x);
    } else {
      assert x == m;
      LessTrichotomy(x + "Z", x + "Z");
    }
  }

  /** The closing Z comes after any digit. */
  lemma ProperPrefix(x: string, y: string)
    requires |x| < |y| && (forall k :: 0 <= k < |x| ==> x[k] == y[k]) && y[|x|] < 'Z'
    ensures x < y && Less(y + "Z", x + "Z")
  {
    PrefixComesAfter(x, y);
  }

  lemma FractionAgainstMillis(f: nat, ms: nat)
    requires f < NANOS_PER_SECOND && ms < 1000
    ensures var x, m := Fraction(f), "." + Pad(ms, 3);
            && (AtMost(x + "Z", m + "Z") <==> f / NANOS_PER_MILLI <= ms && !(x < m))
            && (x + "Z" == m + "Z" <==> x == m)
  {
    var m := "." + Pad(ms, 3);
    assert Pow10(9) == NANOS_PER_SECOND && Pow10(6) == NANOS_PER_MILLI && Pow10(3) == 1000;
    if f == 0 {
      hide Pad, Less;
      ProperPrefix("", m);
    } else {
      TrimZerosOfNonZero(f, 9);
      PadPrefix(f, 9, 6);
      LeadingMillis(f);
      PadOrder(ms, f / NANOS_PER_MILLI, 3);
      TrimmedAgainstThree(Pad(f, 9), Pad(ms, 3));
      hide Pad, TrimZeros, Pow10;
      PointedAgainst(TrimZeros(Pad(f, 9)), Pad(ms, 3));
    }
  }

  lemma PointedAgainst(x: string, m: string)
    ensures AtMost("." + x + "Z", "." + m + "Z") <==> AtMost(x + "Z", m + "Z")
    ensures "." + x < "." + m <==> x < m
    ensures "." + x + "Z" == "." + m + "Z" <==> x + "Z" == m + "Z"
    ensures "." + x == "." + m <==> x == m
  {
    LessInBlocks(".", ".", m + "Z", x + "Z");
    LessTrichotomy(".", ".");
    hide Less;
    assert "." + m + "Z" == "." + (m + "Z") && "." + x + "Z" == "." + (x + "Z");
    assert ("." + (x + "Z"))[1..] == x + "Z" && ("." + (m + "Z"))[1..] == m + "Z";
    assert ("." + x)[1..] == x && ("." + m)[1..] == m;
  }

  /** RFC3339Nano text is at most text of the fixed layout exactly when its millisecond is, except
      that within one second a fraction that is cut short by its trailing zeros comes too late. */
  lemma MixedTextOrder(t: int, u: int)
    requires Printable(t) && Printable(u)
    ensures AtMost(FormatNano(t), FormatMillis(u)) <==>
              t / NANOS_PER_MILLI <= u / NANOS_PER_MILLI && !(SameSecond(t, u) && FractionOf(t) < MillisOf(u))
    ensures FormatNano(t) == FormatMillis(u) <==> SameSecond(t, u) && FractionOf(t) == MillisOf(u)
  {
    var a, b := FormatSecond(t / NANOS_PER_SECOND), FormatSecond(u / NANOS_PER_SECOND);
    MillisOfInstant(t);
    MillisOfInstant(u);
    SecondTextOrder(t / NANOS_PER_SECOND, u / NANOS_PER_SECOND);
    hide FormatSecond, Printable, Fraction, Less, Pad;
    FractionAgainstMillis(t % NANOS_PER_SECOND, u % NANOS_PER_SECOND / NANOS_PER_MILLI);
    BlocksAtMost(a, b, FractionOf(t) + "Z", MillisOf(u) + "Z");
  }

  lemma BlocksAtMost(a: string, b: string, x: string, y: string)
    requires |a| == |b|
    ensures AtMost(a + x, b + y) <==> Less(a, b) || (a == b && AtMost(x, y))
    ensures a + x == b + y <==> a == b && x == y
  {
    LessInBlocks(b, a, y, x);
    LessTrichotomy(a, b);
    hide Less;
    assert (a + x)[..|a|] == a && (b + y)[..|a|] == b && (a + x)[|a|..] == x && (b + y)[|a|..] == y;
  }

  /** So the queue takes a tick's job less than a millisecond too early, and less than a second too
      late; with its time to live in the same text, the job may outlive it by as much. */
  lemma MixedWithinASecond(t: int, u: int)
    requires Printable(t) && Printable(u)
    ensures AtMost(FormatNano(t), FormatMillis(u)) ==> t < u + NANOS_PER_MILLI
    ensures t + NANOS_PER_SECOND <= u ==> AtMost(FormatNano(t), FormatMillis(u))
  {
    MixedTextOrder(t, u);
    hide FormatNano, FormatMillis, Printable, AtMost;
    if AtMost(FormatNano(t), FormatMillis(u)) {
      assert t < NANOS_PER_MILLI * (t / NANOS_PER_MILLI) + NANOS_PER_MILLI;
    }
  }

  /** The scheduler's test next_fire_at <= now, made on the text of both, in any year. */
  predicate DueByText(next: int, now: int) {
    AtMost(FormatTime(next), FormatTime(now))
  }

  /** Exactly when that test succeeds, for instants before, at and after now. */
  lemma DueExactlyWhen(next: int, now: int)
    requires Printable(next) && Printable(now)
    ensures next == now ==> DueByText(next, now)
    ensures next < now ==> (DueByText(next, now) <==> !SameSecond(next, now) || !(FractionOf(next) <= FractionOf(now)))
    ensures now < next ==> (DueByText(next, now) <==> SameSecond(next, now) && FractionOf(now) <= FractionOf(next))
  {
    FormatTimeIsNano(next);
    FormatTimeIsNano(now);
    NanoTextOrder(next, now);
    NanoTextOrder(now, next);
    LessTrichotomy(FormatNano(next), FormatNano(now));
    hide FormatTime, FormatNano, FractionOf, Less;
  }

  /** The witness: a tenth of a second is not due two hundredths later, as its last digit is followed
      by a Z. */
  lemma TenthIsLate(second: int)
    requires FourDigitYear(second)
    ensures !DueByText(second * NANOS_PER_SECOND + 100_000_000, second * NANOS_PER_SECOND + 120_000_000)
  {
    var next, now := second * NANOS_PER_SECOND + 100_000_000, second * NANOS_PER_SECOND + 120_000_000;
    DivMod(NANOS_PER_SECOND, second, 100_000_000);
    DivMod(NANOS_PER_SECOND, second, 120_000_000);
    assert 1 * Pow10(8) == 100_000_000 && 12 * Pow10(7) == 120_000_000;
    hide Fraction, DueByText, Pow10;
    TenthText(next % NANOS_PER_SECOND, now % NANOS_PER_SECOND);
    DueExactlyWhen(next, now);
  }

  lemma OneZero(n: nat, width: nat)
    ensures TrimZeros(Pad(10 * n, width + 1)) == TrimZeros(Pad(n, width))
  {
    assert Pad(10 * n, width + 1) == Pad(n, width) + ['0'];
    assert Pad(10 * n, width + 1)[..width] == Pad(n, width);
    hide Pad;
  }

  /** Zeros at the end of a fraction are not written. */
  lemma {:induction false} Trailing(n: nat, width: nat, zeros: nat)
    ensures TrimZeros(Pad(n * Pow10(zeros), width + zeros)) == TrimZeros(Pad(n, width))
  {
    hide Pad, TrimZeros;
    if zeros > 0 {
      Trailing(n, width, zeros - 1);
      OneZero(n * Pow10(zeros - 1), width + zeros - 1);
      TimesTen(n, zeros);
    }
  }

  lemma TimesTen(n: nat, zeros: nat)
    requires zeros > 0
    ensures n * Pow10(zeros) == 10 * (n * Pow10(zeros - 1))
  {}

  lemma TenthText(tenth: nat, later: nat)
    requires tenth == 1 * Pow10(8) && later == 12 * Pow10(7)
    ensures 0 < tenth < NANOS_PER_SECOND && Fraction(tenth) == ".1"
    ensures 0 < later < NANOS_PER_SECOND && Fraction(later) == ".12"
  {
    TenthDigits();
    assert tenth == 100_000_000 && later == 120_000_000;
    hide Pad, TrimZeros, Pow10;
    Trailing(1, 1, 8);
    Trailing(12, 2, 7);
  }

  lemma TenthDigits()
    ensures TrimZeros(Pad(1, 1)) == "1" && TrimZeros(Pad(12, 2)) == "12"
  {
    var none := Pad(0, 0);
    assert Pad(1, 1) == none + [DigitChar(1)] && Pad(1, 1) == "1";
    assert Pad(12, 2) == Pad(1, 1) + [DigitChar(2)] && Pad(12, 2) == "12";
  }

  /** So it is never a full second wrong in either direction, and for a boundary on a whole
      second, as cron boundaries are, it is never early. */
  lemma DueWithinASecond(next: int, now: int)
    requires Printable(next) && Printable(now)
    ensures DueByText(next, now) ==> next < now + NANOS_PER_SECOND
    ensures next + NANOS_PER_SECOND <= now ==> DueByText(next, now)
    ensures next % NANOS_PER_SECOND == 0 ==>
              (DueByText(next, now) <==> next == now || next / NANOS_PER_SECOND < now / NANOS_PER_SECOND)
  {
    DueExactlyWhen(next, now);
    hide DueByText, Printable;
    if next % NANOS_PER_SECOND == 0 {
      assert FractionOf(next) == "";
      assert "" <= FractionOf(now);
      assert now < next ==> !SameSecond(next, now);
    }
    hide FractionOf;
  }
}
