/** Unix seconds in a TEXT column, as the lock and rate-limit tables keep them: SQLite turns the
    number they are compared with into text, too. */
module EpochText {
  import opened Arithmetic
  import opened Text
  import TextOrder

  predicate Before(a: int, b: int) {
    TextOrder.Less(Itoa(a), Itoa(b))
  }

  predicate SameDigits(a: int, b: int) {
    0 <= a && 0 <= b && |Digits(a)| == |Digits(b)|
  }

  lemma {:induction false} DigitsOrder(m: nat, n: nat)
    requires |Digits(m)| == |Digits(n)|
    ensures TextOrder.Less(Digits(m), Digits(n)) <==> m < n
    ensures Digits(m) == Digits(n) <==> m == n
  {
    var x, y := [('0' as int + m % 10) as char], [('0' as int + n % 10) as char];
    assert TextOrder.Less(x, y) <==> m % 10 < n % 10;
    if m < 10 {
      assert n < 10;
    } else {
      var a, b := Digits(m / 10), Digits(n / 10);
      DigitsOrder(m / 10, n / 10);
      hide TextOrder.Less;
      TextOrder.LessInBlocks(a, b, x, y);
      assert (a + x)[..|a|] == a && (b + y)[..|a|] == b && (a + x)[|a|] == x[0] && (b + y)[|a|] == y[0];
    }
  }

  /** As long as two times have equally many digits their text orders as they do. */
  lemma BeforeIsLess(a: int, b: int)
    requires SameDigits(a, b)
    ensures Before(a, b) <==> a < b
  {
    DigitsOrder(a, b);
  }

  lemma {:induction false} MoreDigits(m: nat, n: nat)
    requires m <= n
    ensures |Digits(m)| <= |Digits(n)|
  {
    if m >= 10 { MoreDigits(m / 10, n / 10); }
  }

  lemma SameDigitsBetween(a: int, x: int, b: int)
    requires SameDigits(a, b) && a <= x <= b
    ensures SameDigits(a, x)
  {
    MoreDigits(a, x);
    MoreDigits(x, b);
  }

  /** A number of k more digits begins with the digits of what it has before them. */
  lemma {:induction false} LeadingDigits(p: nat, k: nat, d: nat)
    requires 0 < p && d < Pow10(k)
    ensures p * Pow10(k) + d >= p
    ensures |Digits(p * Pow10(k) + d)| == |Digits(p)| + k && Digits(p) <= Digits(p * Pow10(k) + d)
  {
    if k == 0 {
    } else {
      var n := p * Pow10(k) + d;
      Shift(p, Pow10(k - 1), d);
      LeadingDigits(p, k - 1, d / 10);
      assert n / 10 == p * Pow10(k - 1) + d / 10;
    }
  }

  lemma Shift(p: nat, q: nat, d: nat)
    requires 0 < p && 0 < q
    ensures (p * (10 * q) + d) / 10 == p * q + d / 10 && p * (10 * q) + d >= 10
  {
    var x := p * q;
    assert p * (10 * q) == 10 * x;
    assert x >= 1;
  }

  /** Some power of ten is so large that adding less than n to it adds no digit. */
  lemma LongEra(n: nat) returns (start: nat)
    ensures SameDigits(start, start + n) && n < start
  {
    start := Pow10(n);
    Pow10Exceeds(n);
    LeadingDigits(1, n, n);
    LeadingDigits(1, n, 0);
  }

  // Exactly when text keeps a second from sorting before any earlier one.

  /** The largest number of k digits. */
  function Nines(k: nat): nat {
    Pow10(k) - 1
  }

  lemma {:induction false} DigitBounds(n: nat)
    ensures Pow10(|Digits(n)|) > n
    ensures n > 0 ==> Pow10(|Digits(n)| - 1) <= n
  {
    if n < 10 {
      assert Pow10(1) == 10 && Pow10(0) == 1;
    } else {
      DigitBounds(n / 10);
    }
  }

  lemma {:induction false} NinesAreDigits(k: nat)
    requires k >= 1
    ensures |Digits(Nines(k))| == k
    ensures k >= 2 ==> Nines(k) / 10 == Nines(k - 1) && Nines(k) >= 10
  {
    if k == 1 {
      assert Pow10(1) == 10;
    } else {
      NinesAreDigits(k - 1);
    }
  }

  lemma {:induction false} NinesBegin(j: nat, k: nat)
    requires 1 <= j <= k
    ensures Digits(Nines(j)) <= Digits(Nines(k))
  {
    NinesAreDigits(k);
    if j < k { NinesBegin(j, k - 1); }
  }

  /** Its digits are nines, but perhaps the last. */
  predicate NinesToTheLast(n: int) {
    n >= 10 && n / 10 == Nines(|Digits(n)| - 1)
  }

  predicate TextHolds(now: int, end: int) {
    SameDigits(now, end) || NinesToTheLast(end)
  }

  lemma NinesSortLast(n: nat, end: nat)
    requires n <= end && NinesToTheLast(end)
    ensures !Before(end, n)
  {
    var j, k := |Digits(n)|, |Digits(end)|;
    MoreDigits(n, end);
    if j == k {
      BeforeIsLess(end, n);
    } else {
      NinesBegin(j, k - 1);
      DigitBounds(n);
      NinesAreDigits(j);
      DigitsOrder(Nines(j), n);
      assert Digits(Nines(j)) <= Digits(end) by { assert Digits(end / 10) <= Digits(end); }
      hide Digits, Pow10, TextOrder.Less;
      NotAfterPrefix(Digits(n), Digits(end), Digits(Nines(j)));
    }
  }

  lemma NotAfterPrefix(a: string, b: string, p: string)
    requires p <= b && |p| == |a| && !TextOrder.Less(p, a)
    ensures !TextOrder.Less(b, a)
  {
    TextOrder.LessInBlocks(p, a, b[|p|..], "");
    assert b == p + b[|p|..] && a == a + "";
  }

  lemma NinesBetween(now: nat, end: nat)
    requires now <= end && !SameDigits(now, end)
    ensures |Digits(end)| >= 2 && now <= Nines(|Digits(end)| - 1) <= end
  {
    MoreDigits(now, end);
    DigitBounds(now);
    DigitBounds(end);
    Pow10Grows(|Digits(now)|, |Digits(end)| - 1);
  }

  lemma NinesSortFirst(end: nat)
    requires end >= 10 && !NinesToTheLast(end)
    ensures Before(end, Nines(|Digits(end)| - 1))
  {
    var k := |Digits(end)| - 1;
    assert |Digits(end / 10)| == k && Digits(end / 10) <= Digits(end);
    NinesAreDigits(k);
    DigitBounds(end / 10);
    DigitsOrder(end / 10, Nines(k));
    hide Digits, Pow10, TextOrder.Less, Nines;
    StartsLess(Digits(end), Digits(Nines(k)), Digits(end / 10), Digits(Nines(k)));
  }

  lemma {:induction false} Pow10Grows(j: nat, k: nat)
    requires j <= k
    ensures Pow10(j) <= Pow10(k)
  {
    if j < k { Pow10Grows(j, k - 1); }
  }

  /** A time sorts before no second up to it, from now on, if and only if it has as many digits as now,
      or is all nines but perhaps for its last digit. */
  lemma TextHoldsExactly(now: int, end: int)
    requires 0 <= now <= end
    ensures (forall n :: now <= n <= end ==> !Before(end, n)) <==> TextHolds(now, end)
  {
    if TextHolds(now, end) {
      forall n | now <= n <= end ensures !Before(end, n) {
        if SameDigits(now, end) {
          SameDigitsBetween(now, n, end);
          BeforeIsLess(end, n);
        } else {
          NinesSortLast(n, end);
        }
      }
    } else {
      NinesBetween(now, end);
      NinesSortFirst(end);
      assert !Before(end, Nines(|Digits(end)| - 1)) ==> false;
    }
  }

  /** The first digit decides between numbers of different length, too: the later time comes first. */
  lemma FewerDigitsSortLater()
    ensures Before(1_759_999_980, 960_000_000) && Before(10_760_000_000, 1_760_000_000)
  {
    assert Pow10(8) == 100_000_000 && Pow10(9) == 1_000_000_000;
    LeadingDigits(1, 9, 759_999_980);
    LeadingDigits(9, 8, 60_000_000);
    LeadingDigits(10, 9, 760_000_000);
    LeadingDigits(17, 8, 60_000_000);
    assert Digits(1) == "1" && Digits(9) == "9" && Digits(10) == "10" && Digits(17) == "17";
    hide Digits, TextOrder.Less;
    StartsLess(Digits(1_759_999_980), Digits(960_000_000), "1", "9");
    StartsLess(Digits(10_760_000_000), Digits(1_760_000_000), "10", "17");
  }

  lemma StartsLess(a: string, b: string, p: string, q: string)
    requires p <= a && q <= b && |p| == |q| && TextOrder.Less(p, q)
    ensures TextOrder.Less(a, b)
  {
    TextOrder.LessInBlocks(p, q, a[|p|..], b[|q|..]);
    assert a == p + a[|p|..] && b == q + b[|q|..];
  }
}
