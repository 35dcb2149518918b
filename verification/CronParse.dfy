/** parseField of cron.go: a field of a cron expression, from its text to its values. */
module CronParse {
  import opened Base
  import opened Text
  import opened FieldSets

  datatype ParseError =
    | InvalidStep | StepNotPositive | InvalidRangeStart | InvalidRangeEnd | InvalidValue | OutOfRange
    | FieldCount | IntervalTooShort | InvalidIntervalNumber | IntervalNotPositive | UnknownUnit

  /** One comma-separated part of a field, "start-end/step" in full. */
  datatype Part = Part(start: int, end: int, step: int)

  function ParsePart(part: string, lo: int, hi: int): (r: Result<Part, ParseError>)
    ensures r.Ok? ==> lo <= r.value.start <= r.value.end <= hi && 1 <= r.value.step <= MAX_INT64
  {
    var slash := Index(part, '/');
    var rangePart := if slash < 0 then part else part[..slash];
    var step := if slash < 0 then Some(1) else Atoi(part[slash + 1..]);
    if step.None? then Err(InvalidStep)
    else if step.value <= 0 then Err(StepNotPositive)
    else
      var dash := Index(rangePart, '-');
      var start := if rangePart == "*" then Some(lo) else Atoi(if dash >= 0 then rangePart[..dash] else rangePart);
      var end := if rangePart == "*" then Some(hi) else Atoi(if dash >= 0 then rangePart[dash + 1..] else rangePart);
      if start.None? then Err(if dash >= 0 then InvalidRangeStart else InvalidValue)
      else if end.None? then Err(InvalidRangeEnd)
      else if start.value < lo || hi < end.value || start.value > end.value then Err(OutOfRange)
      else Ok(Part(start.value, end.value, step.value))
  }

  lemma PlainDigits(n: nat)
    ensures Itoa(n) != "" && '-' !in Itoa(n) && '/' !in Itoa(n) && ',' !in Itoa(n)
  {
    hide Digits;
  }

  /** The parts of a field, or the error of the first part that has one. */
  function ParseParts(parts: seq<string>, lo: int, hi: int): (r: Result<seq<Part>, ParseError>)
    ensures r.Ok? ==> |r.value| == |parts|
    ensures r.Ok? ==> forall p :: p in r.value ==> lo <= p.start <= p.end <= hi && 1 <= p.step <= MAX_INT64
  {
    if parts == [] then Ok([])
    else
      var first := ParsePart(parts[0], lo, hi);
      if first.Err? then Err(first.error)
      else
        var rest := ParseParts(parts[1..], lo, hi);
        if rest.Err? then rest else Ok([first.value] + rest.value)
  }

  // The loop `for v := start; v <= end; v += step` in 64-bit integers.

  /** One addition in 64 bits, where the sum wraps past MAX_INT64. */
  function Add64(v: int, step: int): int {
    if v + step > MAX_INT64 then v + step - 0x1_0000_0000_0000_0000 else v + step
  }

  /** The states of that loop: v climbs, and after an addition that wraps restarts near MIN_INT64. */
  predicate InLoop(v: int, end: int, step: int) {
    && 0 <= end <= 59 && 1 <= step <= MAX_INT64
    && (-60 <= v <= MAX_INT64 || (MIN_INT64 <= v <= MIN_INT64 + 59 && MAX_INT64 - step <= 59))
  }

  /** It ends even when it wraps: each wrap then lowers v by at least two. */
  function LoopRank(v: int, end: int, step: int): nat
    requires InLoop(v, end, step)
  {
    if v > end then 0
    else if step < MAX_INT64 - 59 then end - v + 1
    else if v < -60 then 2 * (v + step) + 202
    else if v + step > MAX_INT64 then 2 * v + 201
    else 1
  }

  function Visited(v: int, end: int, step: int): set<int>
    requires InLoop(v, end, step)
    decreases LoopRank(v, end, step)
  {
    if v > end then {} else {v} + Visited(Add64(v, step), end, step)
  }

  /** The k-th term of a part's arithmetic progression. */
  function Term(p: Part, k: nat): int {
    p.start + k * p.step
  }

  ghost predicate InProgression(p: Part, v: int) {
    v <= p.end && exists k: nat :: Term(p, k) == v
  }

  /** The guard of the loop's only unsafe addition: a part is exact when its first one fits. */
  predicate StepFits(p: Part) {
    p.start + p.step <= MAX_INT64
  }

  function Rest(p: Part): Part {
    p.(start := p.start + p.step)
  }

  lemma Terms(p: Part, k: nat)
    ensures Term(p, 0) == p.start
    ensures Term(p, k + 1) == Term(Rest(p), k)
  {}

  /** A progression is its first term, if that is in bounds, and the rest. */
  lemma ProgressionStep(p: Part, v: int)
    ensures InProgression(p, v) <==> (v == p.start && v <= p.end) || InProgression(Rest(p), v)
  {
    if InProgression(p, v) {
      var k: nat :| Term(p, k) == v;
      Terms(p, if k == 0 then 0 else k - 1);
      hide Term;
      if k > 0 { assert Term(Rest(p), k - 1) == v; }
    }
    if InProgression(Rest(p), v) {
      var k: nat :| Term(Rest(p), k) == v;
      Terms(p, k);
      assert Term(p, k + 1) == v;
    }
    Terms(p, 0);
  }

  lemma ProgressionOver(p: Part, v: int)
    requires p.end < p.start && 0 < p.step
    ensures !InProgression(p, v)
  {
    forall k: nat ensures Term(p, k) >= p.start {
      assert k * p.step >= 0;
    }
  }

  lemma {:induction false} VisitedIsProgression(p: Part, v: int)
    requires InLoop(p.start, p.end, p.step) && -60 <= p.start && StepFits(p)
    ensures v in Visited(p.start, p.end, p.step) <==> InProgression(p, v)
    decreases LoopRank(p.start, p.end, p.step)
  {
    hide InProgression;
    if p.start > p.end {
      ProgressionOver(p, v);
    } else {
      ProgressionStep(p, v);
      if StepFits(Rest(p)) {
        VisitedIsProgression(Rest(p), v);
      } else {
        ProgressionOver(Rest(p), v);
      }
    }
  }

  /** A first addition that wraps puts a value near MIN_INT64 into the set. */
  lemma WrapVisitsNegative(p: Part)
    requires InLoop(p.start, p.end, p.step) && 0 <= p.start <= p.end && !StepFits(p)
    ensures exists v :: v in Visited(p.start, p.end, p.step) && v <= MIN_INT64 + 59
  {
    var next := Add64(p.start, p.step);
    assert next in Visited(next, p.end, p.step);
    assert next in Visited(p.start, p.end, p.step);
  }

  // parseField.

  ghost predicate GoodParts(parts: seq<Part>, hi: int) {
    forall p :: p in parts ==> 0 <= p.start <= p.end <= hi <= 59 && 1 <= p.step <= MAX_INT64
  }

  ghost function VisitedByAll(parts: seq<Part>): set<int>
    requires GoodParts(parts, 59)
  {
    if parts == [] then {}
    else VisitedByAll(parts[..|parts| - 1]) + VisitedBy(parts[|parts| - 1])
  }

  ghost function VisitedBy(p: Part): set<int>
    requires GoodParts([p], 59)
  {
    assert p in [p];
    Visited(p.start, p.end, p.step)
  }

  /** What parseField returns for a field with bounds lo and hi. */
  ghost function FieldValues(field: string, lo: int, hi: int): Result<seq<int>, ParseError>
    requires 0 <= lo <= hi <= 59
  {
    var parts :- ParseParts(Split(field, ','), lo, hi);
    Ok(Sorted(VisitedByAll(parts)))
  }

  method ParseField(field: string, lo: int, hi: int) returns (r: Result<seq<int>, ParseError>)
    requires 0 <= lo <= hi <= 59
    ensures r == FieldValues(field, lo, hi)
  {
    hide ParsePart, ParseParts, GoodParts, VisitedByAll, Prepend;
    var seen: set<int> := {};
    var parts := Split(field, ',');
    ghost var done: seq<Part> := [];
    NoPartsYet(parts, lo, hi);
    for i := 0 to |parts|
      invariant GoodParts(done, 59) && seen == VisitedByAll(done)
      invariant ParseParts(parts, lo, hi) == Prepend(done, ParseParts(parts[i..], lo, hi))
    {
      var part := ParsePart(parts[i], lo, hi);
      NextPart(parts, i, lo, hi, done);
      if part.Err? { return Err(part.error); }
      var p := part.value;
      ghost var before := seen;
      var v := p.start;
      while v <= p.end
        invariant InLoop(v, p.end, p.step)
        invariant before + VisitedBy(p) == seen + Visited(v, p.end, p.step)
        decreases LoopRank(v, p.end, p.step)
      {
        seen := seen + {v};
        v := Add64(v, p.step);
      }
      done := done + [p];
    }
    NoPartsLeft(parts, lo, hi, done);
    var result := SortedKeys(seen);
    return Ok(result);
  }

  /** The keys of a map come in no particular order; sorting makes the result unique. */
  method SortedKeys(seen: set<int>) returns (result: seq<int>)
    ensures result == Sorted(seen)
  {
    result := [];
    var rest := seen;
    while rest != {}
      invariant Distinct(result)
      invariant forall v :: v in seen <==> v in result || v in rest
      invariant forall v :: v in result ==> v !in rest
      decreases rest
    {
      var v := Choose(rest);
      result := result + [v];
      rest := rest - {v};
    }
    result := SortInts(result);
    IncreasingUnique(result, Sorted(seen));
  }

  ghost function Prepend(done: seq<Part>, r: Result<seq<Part>, ParseError>): Result<seq<Part>, ParseError> {
    if r.Err? then r else Ok(done + r.value)
  }

  lemma NoPartsYet(parts: seq<string>, lo: int, hi: int)
    ensures GoodParts([], 59) && VisitedByAll([]) == {}
    ensures ParseParts(parts, lo, hi) == Prepend([], ParseParts(parts[0..], lo, hi))
  {
    assert parts[0..] == parts;
    var r := ParseParts(parts, lo, hi);
    if r.Ok? { assert [] + r.value == r.value; }
  }

  lemma NoPartsLeft(parts: seq<string>, lo: int, hi: int, done: seq<Part>)
    ensures Prepend(done, ParseParts(parts[|parts|..], lo, hi)) == Ok(done)
  {
    assert parts[|parts|..] == [] && done + [] == done;
  }

  lemma NextPart(parts: seq<string>, i: nat, lo: int, hi: int, done: seq<Part>)
    requires i < |parts| && 0 <= lo <= hi <= 59 && GoodParts(done, 59)
    ensures var part := ParsePart(parts[i], lo, hi);
            if part.Err? then Prepend(done, ParseParts(parts[i..], lo, hi)) == Err(part.error)
            else
              var done' := done + [part.value];
              && GoodParts([part.value], 59) && GoodParts(done', 59)
              && VisitedByAll(done') == VisitedByAll(done) + VisitedBy(part.value)
              && Prepend(done, ParseParts(parts[i..], lo, hi)) == Prepend(done', ParseParts(parts[i + 1..], lo, hi))
  {
    hide ParsePart, Visited;
    assert parts[i..][0] == parts[i] && parts[i..][1..] == parts[i + 1..];
    var part := ParsePart(parts[i], lo, hi);
    var rest := ParseParts(parts[i + 1..], lo, hi);
    if part.Ok? {
      assert (done + [part.value])[..|done|] == done;
      if rest.Ok? { assert done + ([part.value] + rest.value) == done + [part.value] + rest.value; }
    }
  }

  // What a field means.

  /** v is a term of one of the parts' progressions. */
  ghost predicate Denotes(parts: seq<Part>, v: int) {
    exists p :: p in parts && InProgression(p, v)
  }

  predicate StepsFit(parts: seq<Part>) {
    forall p :: p in parts ==> StepFits(p)
  }

  lemma {:induction false} VisitedByAllMembers(parts: seq<Part>, v: int)
    requires GoodParts(parts, 59)
    ensures v in VisitedByAll(parts) <==> exists p :: p in parts && v in VisitedBy(p)
  {
    hide VisitedBy;
    if parts == [] {
    } else {
      var init, last := parts[..|parts| - 1], parts[|parts| - 1];
      VisitedByAllMembers(init, v);
      assert parts == init + [last];
    }
  }

  lemma PartStaysInBounds(p: Part, v: int)
    requires 0 <= p.start <= p.end <= 59 && 1 <= p.step <= MAX_INT64 && InProgression(p, v)
    ensures p.start <= v <= p.end
  {
    var k: nat :| Term(p, k) == v;
    assert k * p.step >= 0;
  }

  lemma ExactWhenStepsFit(parts: seq<Part>, v: int)
    requires GoodParts(parts, 59) && StepsFit(parts)
    ensures v in VisitedByAll(parts) <==> Denotes(parts, v)
  {
    VisitedByAllMembers(parts, v);
    hide VisitedByAll, InProgression, Visited;
    forall p | p in parts ensures v in VisitedBy(p) <==> InProgression(p, v) {
      VisitedIsProgression(p, v);
    }
  }

  lemma NegativeWhenOneWraps(parts: seq<Part>) returns (v: int)
    requires GoodParts(parts, 59) && !StepsFit(parts)
    ensures v <= MIN_INT64 + 59 && v in VisitedByAll(parts)
  {
    var p :| p in parts && !StepFits(p);
    WrapVisitsNegative(p);
    v :| v in Visited(p.start, p.end, p.step) && v <= MIN_INT64 + 59;
    VisitedByAllMembers(parts, v);
    hide VisitedByAll, Visited;
    assert v in VisitedBy(p);
  }

  lemma {:induction false} VisitedUpTo(v: int, end: int, step: int)
    requires InLoop(v, end, step)
    ensures forall x :: x in Visited(v, end, step) ==> x <= end
    decreases LoopRank(v, end, step)
  {
    if v > end {
      assert Visited(v, end, step) == {};
    } else {
      VisitedUpTo(Add64(v, step), end, step);
    }
  }

  /** Wrapped or not, a field ends within its bounds and has a value there. */
  lemma AlwaysHasFieldSet(parts: seq<Part>, lo: int, hi: int)
    requires GoodParts(parts, hi) && 0 <= lo <= hi <= 59 && parts != [] && forall p :: p in parts ==> lo <= p.start
    ensures GoodParts(parts, 59) && HasFieldSet(Sorted(VisitedByAll(parts)), lo, hi)
  {
    var p := parts[0];
    var values := Sorted(VisitedByAll(parts));
    assert p in parts && p.start in VisitedBy(p);
    hide Sorted, VisitedByAll, Visited;
    VisitedByAllMembers(parts, p.start);
    assert p.start in values && lo <= p.start;
    forall v | v in values ensures v <= hi {
      VisitedByAllMembers(parts, v);
      var q :| q in parts && v in VisitedBy(q);
      VisitedUpTo(q.start, q.end, q.step);
    }
  }

  lemma DenotedInBounds(parts: seq<Part>, lo: int, hi: int, v: int)
    requires GoodParts(parts, 59) && forall p :: p in parts ==> lo <= p.start && p.end <= hi
    requires Denotes(parts, v)
    ensures lo <= v <= hi
  {
    var p :| p in parts && InProgression(p, v);
    PartStaysInBounds(p, v);
  }

  lemma SomethingVisited(parts: seq<Part>)
    requires GoodParts(parts, 59) && parts != []
    ensures Sorted(VisitedByAll(parts)) != []
  {
    var p := parts[|parts| - 1];
    assert p in parts && p.start in VisitedBy(p);
    hide VisitedBy, Sorted;
    assert p.start in Sorted(VisitedByAll(parts));
  }

  /** The set of a field is in order, has a value within the bounds and none above them; and it is
      the union of the field's progressions exactly when no addition wraps. */
  lemma FieldMeaning(field: string, lo: int, hi: int)
    requires 0 <= lo <= hi <= 59 && FieldValues(field, lo, hi).Ok?
    ensures var values := FieldValues(field, lo, hi).value;
            var parts := ParseParts(Split(field, ','), lo, hi).value;
            && values != [] && HasFieldSet(values, lo, hi)
            && (!StepsFit(parts) ==> values[0] <= MIN_INT64 + 59)
            && (StepsFit(parts) <==> IsFieldSet(values, lo, hi))
            && (StepsFit(parts) <==> forall v :: v in values <==> Denotes(parts, v))
  {
    var parts := ParseParts(Split(field, ','), lo, hi).value;
    var values := FieldValues(field, lo, hi).value;
    assert GoodParts(parts, 59) && values == Sorted(VisitedByAll(parts));
    SomethingVisited(parts);
    AlwaysHasFieldSet(parts, lo, hi);
    hide ParseParts, FieldValues, VisitedByAll, VisitedBy, Denotes, Sorted, StepsFit, Split;
    assert values != [];
    if StepsFit(parts) {
      forall v ensures (v in values <==> Denotes(parts, v)) && (v in values ==> lo <= v <= hi) {
        ExactWhenStepsFit(parts, v);
        if v in values { DenotedInBounds(parts, lo, hi, v); }
      }
    } else {
      var v := NegativeWhenOneWraps(parts);
      assert v in values && v < lo;
      if Denotes(parts, v) { DenotedInBounds(parts, lo, hi, v); }
    }
  }

  /** "5/9223372036854775807". */
  const WRAPPING_FIELD := "5/" + Itoa(MAX_INT64)

  /** "12,5/9223372036854775807". */
  const DECEMBER_AND_WRAPPING := "12" + [','] + WRAPPING_FIELD

  /** The characters that fields are made of. */
  predicate IsPlain(s: string) {
    forall i :: 0 <= i < |s| ==> '*' <= s[i] <= '9'
  }

  lemma WrappingFieldText()
    ensures WRAPPING_FIELD != "" && ',' !in WRAPPING_FIELD
    ensures IsPlain(WRAPPING_FIELD) && IsPlain(DECEMBER_AND_WRAPPING)
  {
    PlainDigits(MAX_INT64);
    assert IsDigits(Itoa(MAX_INT64));
    hide Itoa;
  }

  lemma WrappingPart(lo: int, hi: int)
    requires lo <= 5 <= hi
    ensures ParsePart(WRAPPING_FIELD, lo, hi) == Ok(Part(5, 5, MAX_INT64))
  {
    AtoiOfDigit('5');
    AtoiOfItoa(MAX_INT64);
    hide Atoi, Index, Itoa;
    assert WRAPPING_FIELD[0] == '5' && WRAPPING_FIELD[1] == '/';
    assert WRAPPING_FIELD[..1] == "5" && WRAPPING_FIELD[2..] == Itoa(MAX_INT64);
    IndexIs(WRAPPING_FIELD, '/', 1);
    assert '-' !in "5";
  }

  lemma WrappingFieldIsOnePart()
    ensures Split(WRAPPING_FIELD, ',') == [WRAPPING_FIELD]
  {
    WrappingFieldText();
    SplitOne(WRAPPING_FIELD, ',');
  }

  lemma ParseOnePart(part: string, lo: int, hi: int)
    requires ParsePart(part, lo, hi).Ok?
    ensures ParseParts([part], lo, hi) == Ok([ParsePart(part, lo, hi).value])
  {
    assert [part][1..] == [] && ParseParts([], lo, hi) == Ok([]);
    assert [ParsePart(part, lo, hi).value] + [] == [ParsePart(part, lo, hi).value];
  }

  lemma WrappingPartVisits3()
    ensures GoodParts([Part(5, 5, MAX_INT64)], 59) && 3 in VisitedByAll([Part(5, 5, MAX_INT64)])
    ensures !Denotes([Part(5, 5, MAX_INT64)], 3)
  {
    var p := Part(5, 5, MAX_INT64);
    var wrapped := Add64(5, p.step);
    assert Add64(wrapped, p.step) == 3;
    assert 3 in Visited(3, 5, p.step);
    assert 3 in Visited(wrapped, 5, p.step);
    assert 3 in VisitedBy(p);
    assert p in [p];
    VisitedByAllMembers([p], 3);
    if Denotes([p], 3) { PartStaysInBounds(p, 3); }
  }

  /** The witness: "5/9223372036854775807" is accepted as minutes and selects minute 3 too. */
  lemma WrappingStepIsAccepted()
    ensures FieldValues(WRAPPING_FIELD, 0, 59).Ok?
    ensures 3 in FieldValues(WRAPPING_FIELD, 0, 59).value
    ensures !Denotes(ParseParts(Split(WRAPPING_FIELD, ','), 0, 59).value, 3)
  {
    hide ParsePart, ParseParts, Split, VisitedByAll, Visited, Denotes, GoodParts;
    WrappingFieldIsOnePart();
    WrappingPart(0, 59);
    ParseOnePart(WRAPPING_FIELD, 0, 59);
    WrappingPartVisits3();
  }

  lemma ParseTwoParts(a: string, b: string, lo: int, hi: int)
    requires ParsePart(a, lo, hi).Ok? && ParsePart(b, lo, hi).Ok?
    ensures ParseParts([a, b], lo, hi) == Ok([ParsePart(a, lo, hi).value, ParsePart(b, lo, hi).value])
  {
    hide ParsePart;
    ParseOnePart(b, lo, hi);
    assert [a, b][1..] == [b];
    var p, q := ParsePart(a, lo, hi).value, ParsePart(b, lo, hi).value;
    assert [p] + [q] == [p, q];
  }

  /** As months the same field wraps and has no December. */
  lemma WrappingMonths()
    ensures ParseParts(Split(WRAPPING_FIELD, ','), 1, 12) == Ok([Part(5, 5, MAX_INT64)])
    ensures FieldValues(WRAPPING_FIELD, 1, 12).Ok? && 12 !in FieldValues(WRAPPING_FIELD, 1, 12).value
  {
    hide ParsePart, ParseParts, Split;
    WrappingFieldIsOnePart();
    WrappingPart(1, 12);
    ParseOnePart(WRAPPING_FIELD, 1, 12);
    WrappingPartEndsAt5();
    hide VisitedByAll, FieldSets.Sorted, WRAPPING_FIELD;
    assert FieldValues(WRAPPING_FIELD, 1, 12) == Ok(Sorted(VisitedByAll([Part(5, 5, MAX_INT64)])));
  }

  lemma WrappingPartEndsAt5()
    ensures GoodParts([Part(5, 5, MAX_INT64)], 59)
    ensures forall v :: v in VisitedByAll([Part(5, 5, MAX_INT64)]) ==> v <= 5
  {
    var p := Part(5, 5, MAX_INT64);
    assert [p][..0] == [] && VisitedByAll([]) == {} && GoodParts([p], 59);
    assert VisitedByAll([p]) == VisitedBy(p);
    VisitedUpTo(5, 5, MAX_INT64);
  }

  /** With December it wraps as well, and has it. */
  lemma DecemberAndWrappingMonths()
    ensures ParseParts(Split(DECEMBER_AND_WRAPPING, ','), 1, 12) == Ok([Part(12, 12, 1), Part(5, 5, MAX_INT64)])
    ensures FieldValues(DECEMBER_AND_WRAPPING, 1, 12).Ok? && 12 in FieldValues(DECEMBER_AND_WRAPPING, 1, 12).value
  {
    WrappingFieldText();
    assert ',' !in "12";
    SplitTwo("12", WRAPPING_FIELD, ',');
    TwelvePart();
    hide ParsePart, ParseParts, Split, VisitedByAll, Visited, GoodParts, WRAPPING_FIELD, DECEMBER_AND_WRAPPING;
    WrappingPart(1, 12);
    ParseTwoParts("12", WRAPPING_FIELD, 1, 12);
    TwelveVisited();
  }

  lemma NumberPart(text: string, v: int, lo: int, hi: int)
    requires lo <= v <= hi && Atoi(text) == Some(v) && text != "*" && '/' !in text && '-' !in text
    ensures ParsePart(text, lo, hi) == Ok(Part(v, v, 1))
  {
    hide Atoi, Index;
    assert Index(text, '/') == -1 && Index(text, '-') == -1;
  }

  lemma TwelvePart()
    ensures ParsePart("12", 1, 12) == Ok(Part(12, 12, 1))
  {
    assert Digits(1) == "1" && Itoa(12) == "12";
    AtoiOfItoa(12);
    hide Atoi, ParsePart;
    NumberPart("12", 12, 1, 12);
  }

  lemma TwelveVisited()
    ensures var parts := [Part(12, 12, 1), Part(5, 5, MAX_INT64)]; GoodParts(parts, 59) && 12 in VisitedByAll(parts)
  {
    var parts := [Part(12, 12, 1), Part(5, 5, MAX_INT64)];
    assert GoodParts(parts, 59) && parts[0] in parts && GoodParts([parts[0]], 59);
    assert 12 in VisitedBy(parts[0]);
    hide Visited, VisitedBy;
    VisitedByAllMembers(parts, 12);
  }
}
