/** Text compared byte by byte, as SQLite compares TEXT columns; every character here is ASCII. */
module TextOrder {
  predicate Less(a: string, b: string) {
    b != "" && (a == "" || a[0] < b[0] || (a[0] == b[0] && Less(a[1..], b[1..])))
  }

  predicate AtMost(a: string, b: string) {
    !Less(b, a)
  }

  /** a and b part company at index i, and a comes first. */
  predicate LessAt(a: string, b: string, i: nat) {
    i <= |a| && i < |b| && (forall k :: 0 <= k < i ==> a[k] == b[k]) && (i == |a| || a[i] < b[i])
  }

  lemma {:induction false} LessHasIndex(a: string, b: string) returns (i: nat)
    requires Less(a, b)
    ensures LessAt(a, b, i)
  {
    if a != "" && a[0] == b[0] {
      i := LessHasIndex(a[1..], b[1..]);
      i := i + 1;
      forall k | 0 <= k < i ensures a[k] == b[k] {
        if k > 0 { assert a[k] == a[1..][k - 1] && b[k] == b[1..][k - 1]; }
      }
    } else {
      i := 0;
    }
  }

  lemma {:induction false} IndexMakesLess(a: string, b: string, i: nat)
    requires LessAt(a, b, i)
    ensures Less(a, b)
  {
    if i == 0 {
    } else {
      IndexMakesLess(a[1..], b[1..], i - 1);
    }
  }

  lemma {:induction false} LessTrichotomy(a: string, b: string)
    ensures a != b ==> (Less(a, b) <==> !Less(b, a))
    ensures !Less(a, a)
  {
    if a != "" && b != "" {
      LessTrichotomy(a[1..], b[1..]);
      assert a == [a[0]] + a[1..] && b == [b[0]] + b[1..];
    }
    if a == "" {
    } else {
      LessTrichotomy(a[1..], a[1..]);
    }
  }

  lemma {:induction false} LessTransitive(a: string, b: string, c: string)
    requires Less(a, b) && Less(b, c)
    ensures Less(a, c)
  {
    if a != "" && a[0] == b[0] == c[0] { LessTransitive(a[1..], b[1..], c[1..]); }
  }

  lemma AtMostTransitive(a: string, b: string, c: string)
    requires AtMost(a, b) && AtMost(b, c)
    ensures AtMost(a, c)
  {
    LessTrichotomy(a, b);
    LessTrichotomy(b, c);
    LessTrichotomy(a, c);
    hide Less;
    if Less(a, b) && Less(b, c) { LessTransitive(a, b, c); }
  }

  /** Blocks of equal length compare block by block. */
  lemma {:induction false} LessInBlocks(a: string, b: string, x: string, y: string)
    requires |a| == |b|
    ensures Less(a + x, b + y) <==> Less(a, b) || (a == b && Less(x, y))
  {
    if a == "" {
      assert a + x == x && b + y == y;
    } else {
      LessInBlocks(a[1..], b[1..], x, y);
      assert (a + x)[1..] == a[1..] + x && (b + y)[1..] == b[1..] + y;
      assert a == [a[0]] + a[1..] && b == [b[0]] + b[1..];
    }
  }
}
