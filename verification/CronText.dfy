/** The grammar of cron expressions, and what an expression written in it means, with no reference to
    how cron.go reads it. */
module CronText {
  import Arithmetic
  import opened Base
  import opened Text
  import Calendar
  import CronNext
  import CronParse
  import FieldSets
  import Schedules

  datatype Range = Star | One(n: nat) | Span(first: nat, last: nat)

  /** What stands between the commas of a field: a range, and a step if one is written. */
  datatype Item = Item(range: Range, step: Option<nat>)

  type Field = seq<Item>

  function RangeText(r: Range): string {
    match r
    case Star => "*"
    case One(n) => Itoa(n)
    case Span(first, last) => Itoa(first) + "-" + Itoa(last)
  }

  function ItemText(i: Item): string {
    if i.step.None? then RangeText(i.range) else RangeText(i.range) + "/" + Itoa(i.step.value)
  }

  function ItemTexts(f: Field): (texts: seq<string>)
    ensures |texts| == |f|
    ensures forall k :: 0 <= k < |f| ==> texts[k] == ItemText(f[k])
  {
    if f == [] then [] else [ItemText(f[0])] + ItemTexts(f[1..])
  }

  function FieldText(f: Field): string
    requires f != []
  {
    Join(ItemTexts(f), ',')
  }

  // What an item means in a field with bounds lo and hi.

  function First(i: Item, lo: int): int {
    match i.range
    case Star => lo
    case One(n) => n
    case Span(first, _) => first
  }

  function Last(i: Item, hi: int): int {
    match i.range
    case Star => hi
    case One(n) => n
    case Span(_, last) => last
  }

  function StepOf(i: Item): nat {
    if i.step.None? then 1 else i.step.value
  }

  /** Every step-th value from the first to the last. */
  predicate Names(i: Item, lo: int, hi: int, v: int) {
    StepOf(i) >= 1 && First(i, lo) <= v <= Last(i, hi) && (v - First(i, lo)) % StepOf(i) == 0
  }

  /** All its numbers are 64-bit integers. */
  predicate Readable(i: Item) {
    && First(i, 0) <= MAX_INT64 && Last(i, 0) <= MAX_INT64 && StepOf(i) <= MAX_INT64
  }

  predicate WithinBounds(i: Item, lo: int, hi: int) {
    lo <= First(i, lo) <= Last(i, hi) <= hi && StepOf(i) >= 1
  }

  /** In bounds, with a step that does not overflow. */
  predicate Good(i: Item, lo: int, hi: int) {
    Readable(i) && WithinBounds(i, lo, hi) && First(i, lo) + StepOf(i) <= MAX_INT64
  }

  predicate GoodField(f: Field, lo: int, hi: int) {
    f != [] && forall i :: i in f ==> Good(i, lo, hi)
  }

  ghost predicate FieldNames(f: Field, lo: int, hi: int, v: int) {
    exists i :: i in f && Names(i, lo, hi, v)
  }

  // Items are read as what they mean.

  /** A step belongs to whatever range stands before it. */
  lemma StepBelongsToRange(range: string, step: string, lo: int, hi: int)
    requires '/' !in range
    ensures CronParse.ParsePart(range + "/" + step, lo, hi) ==
              var n, bare := Atoi(step), CronParse.ParsePart(range, lo, hi);
              if n.None? then Err(CronParse.InvalidStep)
              else if n.value <= 0 then Err(CronParse.StepNotPositive)
              else if bare.Err? then bare
              else Ok(bare.value.(step := n.value))
  {
    var part := range + "/" + step;
    assert part[..|range|] == range && part[|range| + 1..] == step && part[|range|] == '/';
    IndexIs(part, '/', |range|);
    NotFound(range, '/');
    hide CronParse.ParsePart, Atoi, Index;
    PartAtSlash(part, range, step, lo, hi);
  }

  lemma PartAtSlash(part: string, range: string, step: string, lo: int, hi: int)
    requires Index(part, '/') == |range| && Index(range, '/') == -1
    requires part[..|range|] == range && part[|range| + 1..] == step
    ensures CronParse.ParsePart(part, lo, hi) ==
              var n, bare := Atoi(step), CronParse.ParsePart(range, lo, hi);
              if n.None? then Err(CronParse.InvalidStep)
              else if n.value <= 0 then Err(CronParse.StepNotPositive)
              else if bare.Err? then bare
              else Ok(bare.value.(step := n.value))
  {
    hide Atoi, Index;
  }

  lemma PartAtDash(part: string, at: nat, first: int, last: int, lo: int, hi: int)
    requires Index(part, '/') == -1 && Index(part, '-') == at && part != "*"
    requires Atoi(part[..at]) == Some(first) && Atoi(part[at + 1..]) == Some(last)
    ensures CronParse.ParsePart(part, lo, hi) ==
              if lo <= first <= last <= hi then Ok(CronParse.Part(first, last, 1)) else Err(CronParse.OutOfRange)
  {
    hide Atoi, Index;
  }

  lemma NotFound(s: string, c: char)
    requires c !in s
    ensures Index(s, c) == -1
  {}

  lemma RangeTextIsPlain(r: Range)
    ensures '/' !in RangeText(r) && ',' !in RangeText(r) && RangeText(r) != ""
  {
    match r
    case Star =>
    case One(n) => CronParse.PlainDigits(n);
    case Span(first, last) =>
      CronParse.PlainDigits(first);
      CronParse.PlainDigits(last);
  }

  lemma BareRangeParses(r: Range, lo: int, hi: int)
    requires Readable(Item(r, None))
    ensures CronParse.ParsePart(RangeText(r), lo, hi) ==
              var i := Item(r, None);
              if WithinBounds(i, lo, hi) then Ok(CronParse.Part(First(i, lo), Last(i, hi), 1))
              else Err(CronParse.OutOfRange)
  {
    RangeTextIsPlain(r);
    NotFound(RangeText(r), '/');
    match r
    case Star => hide Atoi, Index, Itoa;
    case One(n) => OneParses(n, lo, hi);
    case Span(first, last) => SpanParses(first, last, lo, hi);
  }

  lemma OneParses(n: nat, lo: int, hi: int)
    requires n <= MAX_INT64 && '/' !in Itoa(n)
    ensures CronParse.ParsePart(Itoa(n), lo, hi) ==
              if lo <= n <= hi then Ok(CronParse.Part(n, n, 1)) else Err(CronParse.OutOfRange)
  {
    CronParse.PlainDigits(n);
    AtoiOfItoa(n);
    NotANumber();
    hide Atoi, Index, Itoa;
    NotFound(Itoa(n), '-');
    NotFound(Itoa(n), '/');
  }

  lemma NotANumber()
    ensures Atoi("*").None?
  {}

  lemma SpanText(a: string, b: string)
    requires a != "" && '-' !in a && '/' !in a && '/' !in b
    ensures var text := a + "-" + b;
            && Index(text, '/') == -1 && Index(text, '-') == |a| && text != "*"
            && text[..|a|] == a && text[|a| + 1..] == b
  {
    hide Index;
    var text := a + "-" + b;
    assert text == a + ("-" + b) && text[|a|] == '-' && text[..|a|] == a && text[|a| + 1..] == b;
    IndexIs(text, '-', |a|);
    NotFound(text, '/');
  }

  lemma SpanParses(first: nat, last: nat, lo: int, hi: int)
    requires first <= MAX_INT64 && last <= MAX_INT64
    ensures CronParse.ParsePart(Itoa(first) + "-" + Itoa(last), lo, hi) ==
              if lo <= first <= last <= hi then Ok(CronParse.Part(first, last, 1)) else Err(CronParse.OutOfRange)
  {
    hide CronParse.ParsePart, Atoi, Index, Itoa;
    CronParse.PlainDigits(first);
    CronParse.PlainDigits(last);
    AtoiOfItoa(first);
    AtoiOfItoa(last);
    SpanText(Itoa(first), Itoa(last));
    PartAtDash(Itoa(first) + "-" + Itoa(last), |Itoa(first)|, first, last, lo, hi);
  }

  /** An item is read as what it means, or refused for its step or its bounds. */
  lemma ItemParses(i: Item, lo: int, hi: int)
    requires Readable(i)
    ensures CronParse.ParsePart(ItemText(i), lo, hi) ==
              if StepOf(i) == 0 then Err(CronParse.StepNotPositive)
              else if WithinBounds(i, lo, hi) then Ok(CronParse.Part(First(i, lo), Last(i, hi), StepOf(i)))
              else Err(CronParse.OutOfRange)
  {
    hide CronParse.ParsePart, RangeText, Atoi, Itoa;
    BareRangeParses(i.range, lo, hi);
    RangeTextIsPlain(i.range);
    if i.step.Some? {
      AtoiOfItoa(i.step.value);
      StepBelongsToRange(RangeText(i.range), Itoa(i.step.value), lo, hi);
    }
  }

  /** A progression is every step-th value. */
  lemma ProgressionIsNamed(p: CronParse.Part, v: int)
    requires p.step >= 1
    ensures CronParse.InProgression(p, v) <==> p.start <= v <= p.end && (v - p.start) % p.step == 0
  {
    if CronParse.InProgression(p, v) {
      var k: nat :| CronParse.Term(p, k) == v;
      assert v - p.start == p.step * k;
      MultipleDivides(p.step, k);
    }
    if p.start <= v <= p.end && (v - p.start) % p.step == 0 {
      var k := (v - p.start) / p.step;
      assert v - p.start == p.step * k;
      assert k >= 0;
      assert CronParse.Term(p, k) == v;
    }
  }

  lemma MultipleDivides(step: nat, k: nat)
    requires step >= 1
    ensures (step * k) % step == 0 && step * k >= 0
  {
    Arithmetic.DivMod(step, k, 0);
  }

  // Fields.

  lemma {:induction false} SplitOfJoin(parts: seq<string>, c: char)
    requires parts != [] && forall p :: p in parts ==> c !in p
    ensures Split(Join(parts, c), c) == parts
  {
    var s := Join(parts, c);
    hide Index;
    if |parts| == 1 {
      SplitOne(s, c);
    } else {
      var first, rest := parts[0], Join(parts[1..], c);
      SplitOfJoin(parts[1..], c);
      assert s == first + [c] + rest && s[..|first|] == first && s[|first| + 1..] == rest && s[|first|] == c;
      IndexIs(s, c, |first|);
    }
  }

  lemma {:induction false} PartsParse(parts: seq<string>, lo: int, hi: int)
    ensures var r := CronParse.ParseParts(parts, lo, hi);
            && (r.Ok? <==> forall k :: 0 <= k < |parts| ==> CronParse.ParsePart(parts[k], lo, hi).Ok?)
            && (r.Ok? ==> |r.value| == |parts| && forall k :: 0 <= k < |parts| ==> CronParse.ParsePart(parts[k], lo, hi) == Ok(r.value[k]))
  {
    hide CronParse.ParsePart;
    if parts != [] {
      PartsParse(parts[1..], lo, hi);
      assert forall k :: 0 < k < |parts| ==> parts[k] == parts[1..][k - 1];
    }
  }

  lemma ItemTextIsPlain(i: Item)
    ensures ',' !in ItemText(i) && ItemText(i) != ""
  {
    RangeTextIsPlain(i.range);
    if i.step.Some? { CronParse.PlainDigits(i.step.value); }
    hide Itoa, RangeText;
  }

  lemma SplitField(f: Field)
    requires f != []
    ensures Split(FieldText(f), ',') == ItemTexts(f)
  {
    hide ItemText;
    forall text | text in ItemTexts(f) ensures ',' !in text {
      var k :| 0 <= k < |f| && ItemTexts(f)[k] == text;
      ItemTextIsPlain(f[k]);
    }
    SplitOfJoin(ItemTexts(f), ',');
  }

  lemma FieldParses(f: Field, lo: int, hi: int)
    requires f != [] && forall i :: i in f ==> Readable(i)
    ensures var r := CronParse.ParseParts(Split(FieldText(f), ','), lo, hi);
            && (r.Ok? <==> forall i :: i in f ==> WithinBounds(i, lo, hi))
            && (r.Ok? ==> |r.value| == |f|)
            && (r.Ok? ==>
                  forall k :: 0 <= k < |f| ==> r.value[k] == CronParse.Part(First(f[k], lo), Last(f[k], hi), StepOf(f[k])))
  {
    SplitField(f);
    PartsParse(ItemTexts(f), lo, hi);
    hide CronParse.ParseParts, CronParse.ParsePart, ItemText, Split, FieldText, First, Last;
    forall k | 0 <= k < |f|
      ensures CronParse.ParsePart(ItemTexts(f)[k], lo, hi).Ok? <==> WithinBounds(f[k], lo, hi)
      ensures WithinBounds(f[k], lo, hi) ==>
                CronParse.ParsePart(ItemTexts(f)[k], lo, hi) == Ok(CronParse.Part(First(f[k], lo), Last(f[k], hi), StepOf(f[k])))
    {
      assert f[k] in f;
      ItemParses(f[k], lo, hi);
    }
    assert forall i :: i in f ==> exists k :: 0 <= k < |f| && f[k] == i;
  }

  lemma PartsDenote(f: Field, parts: seq<CronParse.Part>, lo: int, hi: int, v: int)
    requires |parts| == |f| && forall i :: i in f ==> StepOf(i) >= 1
    requires forall k :: 0 <= k < |f| ==> parts[k] == CronParse.Part(First(f[k], lo), Last(f[k], hi), StepOf(f[k]))
    ensures CronParse.Denotes(parts, v) <==> FieldNames(f, lo, hi, v)
  {
    hide First, Last, StepOf, CronParse.InProgression;
    forall k | 0 <= k < |f| ensures CronParse.InProgression(parts[k], v) <==> Names(f[k], lo, hi, v) {
      assert f[k] in f;
      ProgressionIsNamed(parts[k], v);
    }
    if CronParse.Denotes(parts, v) {
      var p :| p in parts && CronParse.InProgression(p, v);
      var k :| 0 <= k < |parts| && parts[k] == p;
      assert f[k] in f && Names(f[k], lo, hi, v);
    }
    if FieldNames(f, lo, hi, v) {
      var i :| i in f && Names(i, lo, hi, v);
      var k :| 0 <= k < |f| && f[k] == i;
      assert parts[k] in parts && CronParse.InProgression(parts[k], v);
    }
  }

  /** A field of readable items is accepted exactly when all of them are within bounds. */
  lemma FieldIsAcceptedWhen(f: Field, lo: int, hi: int)
    requires 0 <= lo <= hi <= 59 && f != [] && forall i :: i in f ==> Readable(i)
    ensures CronParse.FieldValues(FieldText(f), lo, hi).Ok? <==> forall i :: i in f ==> WithinBounds(i, lo, hi)
  {
    FieldParses(f, lo, hi);
    hide CronParse.ParseParts, Split, FieldText, Readable, WithinBounds, FieldSets.Sorted, CronParse.VisitedByAll;
  }

  /** What parseField reads from a text is what the text says. */
  lemma FieldSelectsAsWritten(f: Field, lo: int, hi: int)
    requires 0 <= lo <= hi <= 59 && GoodField(f, lo, hi)
    ensures Schedules.FieldStepsFit(FieldText(f), lo, hi) && CronParse.FieldValues(FieldText(f), lo, hi).Ok?
    ensures forall v :: Schedules.Selects(FieldText(f), lo, hi, v) <==> FieldNames(f, lo, hi, v)
  {
    FieldParses(f, lo, hi);
    FieldIsAcceptedWhen(f, lo, hi);
    hide CronParse.ParseParts, Split, FieldText, First, Last, CronParse.Denotes, CronParse.FieldValues;
    var parts := CronParse.ParseParts(Split(FieldText(f), ','), lo, hi).value;
    forall p | p in parts ensures CronParse.StepFits(p) {
      var k :| 0 <= k < |parts| && parts[k] == p;
      assert f[k] in f;
    }
    forall v { PartsDenote(f, parts, lo, hi, v); }
  }

  /** No first addition of a step overflows. */
  predicate StepsFit(f: Field, lo: int) {
    forall i :: i in f ==> First(i, lo) + StepOf(i) <= MAX_INT64
  }

  lemma StepsFitTogether(f: Field, parts: seq<CronParse.Part>, lo: int, hi: int)
    requires |parts| == |f|
    requires forall k :: 0 <= k < |f| ==> parts[k] == CronParse.Part(First(f[k], lo), Last(f[k], hi), StepOf(f[k]))
    ensures StepsFit(f, lo) <==> CronParse.StepsFit(parts)
  {
    hide First, Last, StepOf;
    assert forall k :: 0 <= k < |f| ==> f[k] in f && parts[k] in parts;
    assert CronParse.StepsFit(parts) ==> forall k :: 0 <= k < |f| ==> CronParse.StepFits(parts[k]);
  }

  /** The values come in order, and are those that some item names, if and only if no step overflows. */
  lemma FieldReadsAsWritten(f: Field, lo: int, hi: int)
    requires 0 <= lo <= hi <= 59 && f != [] && forall i :: i in f ==> Readable(i) && WithinBounds(i, lo, hi)
    ensures var r := CronParse.FieldValues(FieldText(f), lo, hi);
            && r.Ok? && StrictlyIncreasing(r.value)
            && ((forall v :: v in r.value <==> FieldNames(f, lo, hi, v)) <==> StepsFit(f, lo))
  {
    FieldParses(f, lo, hi);
    FieldIsAcceptedWhen(f, lo, hi);
    var parts := CronParse.ParseParts(Split(FieldText(f), ','), lo, hi).value;
    assert StrictlyIncreasing(CronParse.FieldValues(FieldText(f), lo, hi).value) by {
      hide CronParse.ParseParts, CronParse.VisitedByAll, FieldText, Split;
    }
    hide CronParse.ParseParts, Split, FieldText, First, Last, CronParse.Denotes, CronParse.FieldValues, StepsFit, CronParse.StepsFit, FieldNames;
    CronParse.FieldMeaning(FieldText(f), lo, hi);
    StepsFitTogether(f, parts, lo, hi);
    forall v { PartsDenote(f, parts, lo, hi, v); }
  }

  /** A star with a step: every n-th value from the lowest on. */
  lemma StarWithStep(n: nat, lo: int, hi: int)
    requires 0 <= lo <= hi <= 59 && 1 <= n <= MAX_INT64 - lo
    ensures var r := CronParse.FieldValues("*/" + Itoa(n), lo, hi);
            r.Ok? && forall v :: v in r.value <==> lo <= v <= hi && (v - lo) % n == 0
  {
    hide CronParse.FieldValues, Itoa;
    var i := Item(Star, Some(n));
    assert ItemTexts([i])[0] == ItemText(i) && ItemText(i) == "*" + "/" + Itoa(n);
    assert FieldText([i]) == "*/" + Itoa(n);
    hide FieldText, ItemTexts;
    FieldReadsAsWritten([i], lo, hi);
    assert forall v :: FieldNames([i], lo, hi, v) <==> Names(i, lo, hi, v);
  }

  // Expressions.

  /** Without a seconds field, an expression stands for second 0. */
  datatype Expression = Expression(
    seconds: Option<Field>,
    minutes: Field,
    hours: Field,
    days: Field,
    months: Field,
    weekdays: Field)

  predicate GoodExpression(e: Expression) {
    && (e.seconds.Some? ==> GoodField(e.seconds.value, 0, 59))
    && GoodField(e.minutes, 0, 59) && GoodField(e.hours, 0, 23) && GoodField(e.days, 1, 31)
    && GoodField(e.months, 1, 12) && GoodField(e.weekdays, 0, 6)
  }

  function Words(e: Expression): (words: seq<string>)
    requires GoodExpression(e)
  {
    (if e.seconds.Some? then [FieldText(e.seconds.value)] else [])
    + [FieldText(e.minutes), FieldText(e.hours), FieldText(e.days), FieldText(e.months), FieldText(e.weekdays)]
  }

  function ExpressionText(e: Expression): string
    requires GoodExpression(e)
  {
    Join(Words(e), ' ')
  }

  /** The seconds at which the expression says to fire. Weekday 0 is Sunday. */
  ghost predicate SaysToFire(e: Expression, t: int) {
    && (if e.seconds.Some? then FieldNames(e.seconds.value, 0, 59, Calendar.Second(t)) else Calendar.Second(t) == 0)
    && FieldNames(e.minutes, 0, 59, Calendar.Minute(t))
    && FieldNames(e.hours, 0, 23, Calendar.Hour(t))
    && FieldNames(e.days, 1, 31, Calendar.Day(t))
    && FieldNames(e.months, 1, 12, Calendar.Month(t))
    && FieldNames(e.weekdays, 0, 6, Calendar.Weekday(t))
  }

  lemma NumberIsPlain(n: nat)
    ensures CronParse.IsPlain(Itoa(n)) && Itoa(n) != ""
  {
    assert IsDigits(Digits(n));
    hide Digits;
  }

  lemma RangeIsPlain(r: Range)
    ensures CronParse.IsPlain(RangeText(r)) && RangeText(r) != ""
  {
    hide Itoa;
    match r
    case Star =>
    case One(n) => NumberIsPlain(n);
    case Span(first, last) =>
      NumberIsPlain(first);
      NumberIsPlain(last);
  }

  lemma ItemTextIsWord(i: Item)
    ensures ItemText(i) != "" && CronParse.IsPlain(ItemText(i))
  {
    hide Itoa, RangeText;
    RangeIsPlain(i.range);
    if i.step.Some? { NumberIsPlain(i.step.value); }
  }

  lemma {:induction false} JoinIsPlain(parts: seq<string>)
    requires parts != [] && forall p :: p in parts ==> p != "" && CronParse.IsPlain(p)
    ensures Join(parts, ',') != "" && CronParse.IsPlain(Join(parts, ','))
  {
    assert parts[0] in parts && forall p :: p in parts[1..] ==> p in parts;
    if |parts| > 1 { JoinIsPlain(parts[1..]); }
  }

  lemma FieldTextIsPlain(f: Field)
    requires f != []
    ensures FieldText(f) != "" && CronParse.IsPlain(FieldText(f))
  {
    hide ItemText, CronParse.IsPlain;
    forall text | text in ItemTexts(f) ensures text != "" && CronParse.IsPlain(text) {
      var k :| 0 <= k < |f| && ItemTexts(f)[k] == text;
      ItemTextIsWord(f[k]);
    }
    JoinIsPlain(ItemTexts(f));
  }

  lemma WordsArePlain(e: Expression)
    requires GoodExpression(e)
    ensures forall w :: w in Words(e) ==> w != "" && CronParse.IsPlain(w)
  {
    if e.seconds.Some? { FieldTextIsPlain(e.seconds.value); }
    FieldTextIsPlain(e.minutes);
    FieldTextIsPlain(e.hours);
    FieldTextIsPlain(e.days);
    FieldTextIsPlain(e.months);
    FieldTextIsPlain(e.weekdays);
    hide FieldText, CronParse.IsPlain, Good;
  }

  /** The words of the text are the fields, and no blank stands around them. */
  lemma TextHasFields(e: Expression)
    requires GoodExpression(e)
    ensures Fields(ExpressionText(e)) == Words(e)
    ensures Trimmed(ExpressionText(e)) && !HasPrefix(ExpressionText(e), Schedules.EVERY)
  {
    WordsArePlain(e);
    Schedules.PlainWords(Words(e));
    JoinKeepsEnds(Words(e));
    hide Fields, FieldText, Words, IsSpace, Good;
    FieldsOfWords(Words(e));
  }

  lemma PlainIsNoSpace(c: char)
    requires '*' <= c <= '9'
    ensures !IsSpace(c) && c != '@'
  {}

  lemma {:induction false} JoinKeepsEnds(words: seq<string>)
    requires words != [] && forall w :: w in words ==> w != "" && CronParse.IsPlain(w)
    ensures var text := Join(words, ' ');
            text != "" && '*' <= text[0] <= '9' && '*' <= text[|text| - 1] <= '9'
            && Trimmed(text) && !HasPrefix(text, Schedules.EVERY)
  {
    var text := Join(words, ' ');
    assert words[0] in words && forall w :: w in words[1..] ==> w in words;
    if |words| > 1 { JoinKeepsEnds(words[1..]); }
    hide IsSpace, Join;
    PlainIsNoSpace(text[0]);
    PlainIsNoSpace(text[|text| - 1]);
    assert Schedules.EVERY[0] == '@';
  }

  lemma ZeroIsNamed(v: int)
    ensures FieldText([Item(One(0), None)]) == "0" && GoodField([Item(One(0), None)], 0, 59)
    ensures FieldNames([Item(One(0), None)], 0, 59, v) <==> v == 0
  {
    var i := Item(One(0), None);
    assert ItemTexts([i])[0] == ItemText(i) && Itoa(0) == "0";
    assert FieldNames([i], 0, 59, v) <==> Names(i, 0, 59, v);
  }

  /** The texts that the parser looks at. */
  function ParsedTexts(e: Expression): seq<string>
    requires GoodExpression(e)
  {
    var first := if e.seconds.Some? then FieldText(e.seconds.value) else "0";
    [first, FieldText(e.minutes), FieldText(e.hours), FieldText(e.days), FieldText(e.months), FieldText(e.weekdays)]
  }

  lemma FirstOfSix(first: string, rest: seq<string>)
    requires |rest| == 5
    ensures [first] + rest == [first, rest[0], rest[1], rest[2], rest[3], rest[4]]
    ensures [] + rest == rest
  {}

  lemma FieldsOfText(e: Expression)
    requires GoodExpression(e)
    ensures Schedules.SixFields(ExpressionText(e)) == ParsedTexts(e)
    ensures |Fields(ExpressionText(e))| in {5, 6} && Fields(ExpressionText(e))[|Fields(ExpressionText(e))| - 2] == FieldText(e.months)
  {
    hide FieldText, Fields, Good, ExpressionText, HasPrefix, Trimmed;
    TextHasFields(e);
    var rest := [FieldText(e.minutes), FieldText(e.hours), FieldText(e.days), FieldText(e.months), FieldText(e.weekdays)];
    FirstOfSix(if e.seconds.Some? then FieldText(e.seconds.value) else "0", rest);
    assert Words(e) == if e.seconds.Some? then [FieldText(e.seconds.value)] + rest else rest;
  }

  lemma FitsAt(f: Field, lo: int, hi: int)
    requires 0 <= lo <= hi <= 59 && GoodField(f, lo, hi)
    ensures Schedules.FieldFits(FieldText(f), lo, hi)
  {
    FieldSelectsAsWritten(f, lo, hi);
    hide FieldText, Schedules.FieldStepsFit, GoodField, CronParse.FieldValues;
  }

  lemma ZeroFits()
    ensures Schedules.FieldFits("0", 0, 59)
  {
    ZeroIsNamed(0);
    hide FieldText, GoodField, FieldNames, Schedules.FieldFits;
    FitsAt([Item(One(0), None)], 0, 59);
  }

  lemma TextsFit(e: Expression)
    requires GoodExpression(e)
    ensures var f := ParsedTexts(e);
            && Schedules.FieldFits(f[0], 0, 59) && Schedules.FieldFits(f[1], 0, 59) && Schedules.FieldFits(f[2], 0, 23)
            && Schedules.FieldFits(f[3], 1, 31) && Schedules.FieldFits(f[4], 1, 12) && Schedules.FieldFits(f[5], 0, 6)
  {
    hide Schedules.FieldFits, FieldText, GoodField;
    if e.seconds.Some? {
      FitsAt(e.seconds.value, 0, 59);
    } else {
      ZeroFits();
    }
    FitsAt(e.minutes, 0, 59);
    FitsAt(e.hours, 0, 23);
    FitsAt(e.days, 1, 31);
    FitsAt(e.months, 1, 12);
    FitsAt(e.weekdays, 0, 6);
  }

  lemma TextIsAccepted(e: Expression)
    requires GoodExpression(e)
    ensures Schedules.CronOf(ExpressionText(e)).Ok?
    ensures Schedules.ExprStepsFit(ExpressionText(e)) && Schedules.MonthStepsFit(ExpressionText(e))
  {
    hide *;
    FieldsOfText(e);
    TextsFit(e);
    Schedules.AllFieldsFit(ExpressionText(e));
  }

  lemma TextsSelect(e: Expression, t: int)
    requires GoodExpression(e)
    ensures var f := ParsedTexts(e);
            (&& Schedules.Selects(f[0], 0, 59, Calendar.Second(t)) && Schedules.Selects(f[1], 0, 59, Calendar.Minute(t))
             && Schedules.Selects(f[2], 0, 23, Calendar.Hour(t)) && Schedules.Selects(f[3], 1, 31, Calendar.Day(t))
             && Schedules.Selects(f[4], 1, 12, Calendar.Month(t)) && Schedules.Selects(f[5], 0, 6, Calendar.Weekday(t)))
            <==> SaysToFire(e, t)
  {
    hide Schedules.Selects, FieldText, FieldNames, GoodField;
    hide Calendar.Second, Calendar.Minute, Calendar.Hour, Calendar.Day, Calendar.Month, Calendar.Weekday;
    if e.seconds.Some? {
      AsWrittenAt(e.seconds.value, 0, 59, Calendar.Second(t));
    } else {
      ZeroSelects(Calendar.Second(t));
    }
    AsWrittenAt(e.minutes, 0, 59, Calendar.Minute(t));
    AsWrittenAt(e.hours, 0, 23, Calendar.Hour(t));
    AsWrittenAt(e.days, 1, 31, Calendar.Day(t));
    AsWrittenAt(e.months, 1, 12, Calendar.Month(t));
    AsWrittenAt(e.weekdays, 0, 6, Calendar.Weekday(t));
  }

  lemma ZeroSelects(v: int)
    ensures Schedules.Selects("0", 0, 59, v) <==> v == 0
  {
    ZeroIsNamed(v);
    hide FieldText, GoodField, FieldNames, Schedules.Selects;
    AsWrittenAt([Item(One(0), None)], 0, 59, v);
  }

  lemma TextSelects(e: Expression, t: int)
    requires GoodExpression(e)
    ensures Schedules.ExprSelects(ExpressionText(e), t) <==> SaysToFire(e, t)
  {
    hide Schedules.Selects, FieldText, SaysToFire, GoodField, Fields, ExpressionText, Schedules.SixFields;
    hide Calendar.Second, Calendar.Minute, Calendar.Hour, Calendar.Day, Calendar.Month, Calendar.Weekday;
    FieldsOfText(e);
    TextsSelect(e, t);
  }

  lemma AsWrittenAt(f: Field, lo: int, hi: int, v: int)
    requires 0 <= lo <= hi <= 59 && GoodField(f, lo, hi)
    ensures Schedules.Selects(FieldText(f), lo, hi, v) <==> FieldNames(f, lo, hi, v)
  {
    hide *;
    FieldSelectsAsWritten(f, lo, hi);
  }

  /** From text to firing: an expression written in the grammar is accepted, and fires in exactly the
      seconds at which it says to. */
  lemma FiresAsWritten(e: Expression)
    requires GoodExpression(e)
    ensures var r := Schedules.ScheduleOf(ExpressionText(e));
            && r.Ok? && r.value.Cron? && CronNext.Searchable(r.value.cron)
            && forall t :: CronNext.Fires(r.value.cron, t) <==> SaysToFire(e, t)
  {
    var text := ExpressionText(e);
    TextHasFields(e);
    hide ExpressionText, Schedules.CronOf, Schedules.ScheduleOf, Schedules.ExprStepsFit, Schedules.ExprSelects, Schedules.MonthStepsFit;
    hide CronNext.WellFormed, CronNext.Searchable, CronNext.StaysInCalendar, CronNext.Fires, SaysToFire, GoodExpression, Trimmed, HasPrefix, Schedules.EVERY;
    TextIsAccepted(e);
    Schedules.TrimmedCronText(text);
    Schedules.CronMeaning(text);
    forall t ensures CronNext.Fires(Schedules.CronOf(text).value, t) <==> SaysToFire(e, t) {
      TextSelects(e, t);
    }
  }
}
