/** Facts about / and % that the solver is better off not rediscovering. */
module Arithmetic {

  lemma DivMod(d: int, q: int, r: int)
    requires 0 <= r < d
    ensures (q * d + r) / d == q && (q * d + r) % d == r
  {
    var x := q * d + r;
    var k := x / d;
    assert x == d * k + x % d;
    assert d * (q - k) == x % d - r;
    assert q - k >= 1 ==> d * (q - k) >= d;
    assert q - k <= -1 ==> d * (q - k) <= -d;
  }

  lemma ModStep(a: int, b: int)
    ensures (a % 7 + b) % 7 == (a + b) % 7
  {
    var q := a / 7;
    assert a + b == 7 * q + (a % 7 + b);
  }

  lemma DivStep(d: int, x: int)
    requires 0 < d
    ensures (x + d) / d == x / d + 1
  {
    DivMod(d, x / d + 1, x % d);
    assert x + d == (x / d + 1) * d + x % d;
  }

  function Pow10(width: nat): (power: nat)
    ensures power >= 1
  {
    if width == 0 then 1 else 10 * Pow10(width - 1)
  }

  lemma {:induction false} Pow10Exceeds(n: nat)
    ensures Pow10(n) > n
  {
    if n == 0 {
    } else {
      Pow10Exceeds(n - 1);
    }
  }
}
