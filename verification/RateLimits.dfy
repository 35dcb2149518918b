/** The fixed-window rate limiter of lock.go. Times are Unix seconds, which the table keeps, and
    compares, as text. */
module RateLimits {
  import Arithmetic
  import opened Base
  import opened EpochText

  /** Counts by name and window start: _ganso_rate_limits. */
  type Windows = map<(string, int), int>

  /** SQLite's integer division, which truncates. */
  function Truncated(a: int, b: int): int
    requires b != 0
  {
    if (a < 0) == (b < 0) then Abs(a) / Abs(b) else -(Abs(a) / Abs(b))
  }

  function Abs(x: int): int { if x < 0 then -x else x }

  /** The start of the n-th window. */
  function Window(n: int, perSec: int): int { n * perSec }

  function WindowStart(now: int, perSec: int): int
    requires perSec != 0
  {
    Window(Truncated(now, perSec), perSec)
  }

  /** Insert a count of one, or increment a count below the limit. */
  function Upsert(t: Windows, name: string, window: int, limit: int): (Windows, bool) {
    var k := (name, window);
    if k !in t then (t[k := 1], true)
    else if t[k] < limit then (t[k := t[k] + 1], true)
    else (t, false)
  }

  /** A division by zero is NULL, which the window column refuses. */
  function TryRateLimit(t: Windows, name: string, limit: int, perSec: int, now: int): Result<(Windows, bool), string> {
    if perSec == 0 then Err("rate limit upsert") else Ok(Upsert(t, name, WindowStart(now, perSec), limit))
  }

  function Stale(t: Windows, olderThan: int, now: int): set<(string, int)> {
    set k | k in t && Before(k.1, now - olderThan)
  }

  function Sweep(t: Windows, olderThan: int, now: int): Windows {
    t - Stale(t, olderThan, now)
  }

  /** A sweep removes the windows whose start sorts before its cutoff, of all names, and keeps the
      counts of the others. */
  lemma SweepRemoves(t: Windows, olderThan: int, now: int)
    ensures var t' := Sweep(t, olderThan, now);
            forall k :: k in t ==> (k in t' <==> !Before(k.1, now - olderThan)) && (k in t' ==> t'[k] == t[k])
  {
    hide Before;
  }

  class RateLimiter {
    var rows: Windows

    constructor ()
      ensures rows == map[]
    {
      rows := map[];
    }

    /** TryRateLimit: the upsert, then whether it changed a row. */
    method TryTake(name: string, limit: int, perSec: int, now: int) returns (r: Result<bool, string>)
      modifies this
      ensures match TryRateLimit(old(rows), name, limit, perSec, now)
              case Err(e) => r == Err(e) && rows == old(rows)
              case Ok((rows', allowed)) => r == Ok(allowed) && rows == rows'
    {
      if perSec == 0 { return Err("rate limit upsert"); }
      var k := (name, WindowStart(now, perSec));
      var changes := 0;
      if k !in rows {
        rows, changes := rows[k := 1], 1;
      } else if rows[k] < limit {
        rows, changes := rows[k := rows[k] + 1], 1;
      }
      return Ok(changes > 0);
    }

    /** SweepRateLimits. */
    method SweepOld(olderThan: int, now: int) returns (count: nat)
      modifies this
      ensures rows == Sweep(old(rows), olderThan, now) && count == |Stale(old(rows), olderThan, now)|
    {
      var stale := set k | k in rows && Before(k.1, now - olderThan);
      count := |stale|;
      rows := rows - stale;
    }
  }

  // Windows.

  lemma WindowsApart(m: int, n: int, perSec: int)
    requires 0 < perSec && m < n
    ensures Window(m, perSec) + perSec <= Window(n, perSec)
  {
    var gap := n - m - 1;
    assert gap * perSec >= 0;
    assert n * perSec == m * perSec + perSec + gap * perSec;
  }

  lemma DivideNow(now: int, perSec: int)
    requires now >= 0 && perSec >= 1
    ensures Truncated(now, perSec) == now / perSec
  {}

  /** The current window holds the present, and no other does. */
  lemma CurrentWindow(now: int, perSec: int)
    requires now >= 0 && perSec >= 1
    ensures WindowStart(now, perSec) <= now < WindowStart(now, perSec) + perSec
    ensures forall n :: Window(n, perSec) <= now < Window(n, perSec) + perSec ==> Window(n, perSec) == WindowStart(now, perSec)
  {
    DivideNow(now, perSec);
    var current := now / perSec;
    hide Truncated;
    assert Window(current, perSec) <= now < Window(current, perSec) + perSec;
    hide Window;
    forall n | Window(n, perSec) <= now < Window(n, perSec) + perSec ensures n == current {
      if n < current { WindowsApart(n, current, perSec); }
      if n > current { WindowsApart(current, n, perSec); }
    }
  }

  // Runs.

  datatype Op =
    | Take(name: string, limit: int, perSec: int)
    | SweepOp(olderThan: int)

  datatype Event = Event(now: int, op: Op)

  /** The instants of the calls for one name, and of those that were let through. */
  datatype World = World(rows: Windows, clock: int, calls: seq<int>, admitted: seq<int>)

  const START := World(map[], 0, [], [])

  function Next(w: World, name: string, e: Event): World {
    match e.op
    case SweepOp(olderThan) => w.(rows := Sweep(w.rows, olderThan, e.now), clock := e.now)
    case Take(caller, limit, perSec) =>
      var r := TryRateLimit(w.rows, caller, limit, perSec, e.now);
      if r.Err? then w.(clock := e.now)
      else if caller != name then w.(rows := r.value.0, clock := e.now)
      else w.(rows := r.value.0, clock := e.now, calls := w.calls + [e.now],
              admitted := if r.value.1 then w.admitted + [e.now] else w.admitted)
  }

  function Run(name: string, es: seq<Event>): World {
    if es == [] then START else Next(Run(name, es[..|es| - 1]), name, es[|es| - 1])
  }

  /** The clock does not run backwards. */
  predicate Monotone(es: seq<Event>) {
    && (es != [] ==> es[0].now >= 0)
    && (forall i :: 0 <= i < |es| - 1 ==> es[i].now <= es[i + 1].now)
  }

  /** The name is always used with this limit and window length. */
  predicate Fixed(es: seq<Event>, name: string, limit: int, perSec: int) {
    forall i :: 0 <= i < |es| && es[i].op.Take? && es[i].op.name == name ==> es[i].op.limit == limit && es[i].op.perSec == perSec
  }

  /** A sweep at this moment leaves the current window alone. */
  predicate Spares(now: int, perSec: int, olderThan: int)
    requires perSec != 0
  {
    !Before(WindowStart(now, perSec), now - olderThan)
  }

  predicate SweepsSpare(es: seq<Event>, perSec: int)
    requires perSec != 0
  {
    forall i :: 0 <= i < |es| && es[i].op.SweepOp? ==> Spares(es[i].now, perSec, es[i].op.olderThan)
  }

  /** How many of the instants lie in [lo, hi). */
  function Count(times: seq<int>, lo: int, hi: int): nat {
    if times == [] then 0
    else Count(times[..|times| - 1], lo, hi) + if lo <= times[|times| - 1] < hi then 1 else 0
  }

  lemma CountAppend(times: seq<int>, t: int, lo: int, hi: int)
    ensures Count(times + [t], lo, hi) == Count(times, lo, hi) + if lo <= t < hi then 1 else 0
  {
    assert (times + [t])[..|times|] == times;
  }

  lemma {:induction false} CountSplit(times: seq<int>, lo: int, mid: int, hi: int)
    requires lo <= mid <= hi
    ensures Count(times, lo, hi) == Count(times, lo, mid) + Count(times, mid, hi)
  {
    if times == [] {
    } else {
      CountSplit(times[..|times| - 1], lo, mid, hi);
    }
  }

  function Min(a: int, b: int): int { if a < b then a else b }

  /** The first call of a window is let through whatever the limit. */
  function Allowance(limit: int): int { if limit > 1 then limit else 1 }

  /** A window has admitted as many of its calls as its allowance, or all; and until it is over its
      row says how many. */
  predicate WindowInv(w: World, name: string, limit: int, perSec: int, window: int) {
    var calls, admitted := Count(w.calls, window, window + perSec), Count(w.admitted, window, window + perSec);
    && admitted == Min(Allowance(limit), calls)
    && (window > w.clock ==> calls == 0)
    && (window + perSec > w.clock ==>
          if (name, window) in w.rows then w.rows[(name, window)] == admitted && calls > 0 else calls == 0)
  }

  ghost predicate Inv(w: World, name: string, limit: int, perSec: int) {
    && w.clock >= 0
    && forall n :: WindowInv(w, name, limit, perSec, Window(n, perSec))
  }

  predicate Admissible(w: World, e: Event, name: string, limit: int, perSec: int)
    requires perSec != 0
  {
    && w.clock <= e.now
    && match e.op
       case SweepOp(olderThan) => Spares(e.now, perSec, olderThan)
       case Take(caller, l, p) => caller == name ==> l == limit && p == perSec
  }

  /** A call concerns the current window alone. */
  lemma CallKeepsWindow(w: World, e: Event, name: string, limit: int, perSec: int, window: int)
    requires perSec >= 1 && w.clock >= 0 && Admissible(w, e, name, limit, perSec)
    requires e.op.Take? && e.op.name == name
    requires window <= e.now < window + perSec <==> window == WindowStart(e.now, perSec)
    requires WindowInv(w, name, limit, perSec, window)
    ensures WindowInv(Next(w, name, e), name, limit, perSec, window)
  {
    hide WindowStart, Count;
    var (rows, allowed) := Upsert(w.rows, name, WindowStart(e.now, perSec), limit);
    assert Next(w, name, e) == World(rows, e.now, w.calls + [e.now], if allowed then w.admitted + [e.now] else w.admitted);
    hide Next;
    CountAppend(w.calls, e.now, window, window + perSec);
    CountAppend(w.admitted, e.now, window, window + perSec);
  }

  lemma StepKeepsWindow(w: World, e: Event, name: string, limit: int, perSec: int, n: int)
    requires perSec >= 1 && w.clock >= 0 && Admissible(w, e, name, limit, perSec)
    requires WindowInv(w, name, limit, perSec, Window(n, perSec))
    ensures WindowInv(Next(w, name, e), name, limit, perSec, Window(n, perSec))
  {
    hide WindowStart, Window, Count, Before;
    CurrentWindow(e.now, perSec);
    if e.op.Take? && e.op.name == name { CallKeepsWindow(w, e, name, limit, perSec, Window(n, perSec)); }
  }

  lemma {:induction false} RunKeepsInv(es: seq<Event>, name: string, limit: int, perSec: int)
    requires perSec >= 1 && Monotone(es) && Fixed(es, name, limit, perSec) && SweepsSpare(es, perSec)
    ensures Inv(Run(name, es), name, limit, perSec)
    ensures Run(name, es).clock == if es == [] then 0 else es[|es| - 1].now
  {
    if es == [] {
    } else {
      var init, e := es[..|es| - 1], es[|es| - 1];
      RunKeepsInv(init, name, limit, perSec);
      var w := Run(name, init);
      assert Admissible(w, e, name, limit, perSec);
      hide WindowInv;
      hide Window, Next;
      forall n ensures WindowInv(Next(w, name, e), name, limit, perSec, Window(n, perSec)) {
        StepKeepsWindow(w, e, name, limit, perSec, n);
      }
    }
  }

  // The theorems.

  function Admitted(es: seq<Event>, name: string, from: int, perSec: int): nat {
    Count(Run(name, es).admitted, from, from + perSec)
  }

  function Called(es: seq<Event>, name: string, from: int, perSec: int): nat {
    Count(Run(name, es).calls, from, from + perSec)
  }

  /** Every window admits exactly as many of the calls made in it as the limit allows, the first one
      in any case, if no sweep reaches into it. */
  lemma WindowAdmits(es: seq<Event>, name: string, limit: int, perSec: int, n: int)
    requires perSec >= 1 && Monotone(es) && Fixed(es, name, limit, perSec) && SweepsSpare(es, perSec)
    ensures Admitted(es, name, Window(n, perSec), perSec)
            == Min(Allowance(limit), Called(es, name, Window(n, perSec), perSec))
    ensures Admitted(es, name, Window(n, perSec), perSec) == Min(limit, Called(es, name, Window(n, perSec), perSec))
            <==> limit >= 1 || (limit == 0 && Called(es, name, Window(n, perSec), perSec) == 0)
  {
    RunKeepsInv(es, name, limit, perSec);
    assert WindowInv(Run(name, es), name, limit, perSec, Window(n, perSec));
  }

  lemma NextWindow(from: int, perSec: int)
    requires perSec >= 1
    ensures Window(from / perSec, perSec) <= from < Window(from / perSec, perSec) + perSec == Window(from / perSec + 1, perSec)
  {}

  /** The witness for the allowance: a limit of 0 admits a call. */
  lemma ZeroLimitAdmits()
    ensures Run("r", [Event(0, Take("r", 0, 60))]).admitted == [0]
  {
    var e := Event(0, Take("r", 0, 60));
    assert [e][..0] == [] && Run("r", []) == START;
    assert Run("r", [e]) == Next(START, "r", e);
  }

  /** Any perSec seconds, aligned or not, admit at most twice the limit. */
  lemma SpanAdmits(es: seq<Event>, name: string, limit: int, perSec: int, from: int)
    requires perSec >= 1 && Monotone(es) && Fixed(es, name, limit, perSec) && SweepsSpare(es, perSec)
    ensures Admitted(es, name, from, perSec) <= 2 * Allowance(limit)
  {
    hide Run, Count;
    var n := from / perSec;
    var first, second := Window(n, perSec), Window(n + 1, perSec);
    NextWindow(from, perSec);
    hide Window;
    WindowAdmits(es, name, limit, perSec, n);
    WindowAdmits(es, name, limit, perSec, n + 1);
    var times := Run(name, es).admitted;
    CountSplit(times, first, from, second);
    CountSplit(times, from, second, from + perSec);
    CountSplit(times, second, from + perSec, second + perSec);
  }

  /** In every run whose sweeps are at this moment and for this age, every window keeps to its
      limit. */
  ghost predicate SafeToSweep(perSec: int, now: int, olderThan: int) {
    forall es, name, limit, n | Monotone(es) && Fixed(es, name, limit, perSec) && SweepsAt(es, now, olderThan) ::
      Admitted(es, name, Window(n, perSec), perSec) == Min(Allowance(limit), Called(es, name, Window(n, perSec), perSec))
  }

  predicate SweepsAt(es: seq<Event>, now: int, olderThan: int) {
    forall i :: 0 <= i < |es| && es[i].op.SweepOp? ==> es[i].now == now && es[i].op.olderThan == olderThan
  }

  /** One call, one sweep and one more call in the same second. */
  function SweepBetween(perSec: int, now: int, olderThan: int): seq<Event> {
    [Event(now, Take("r", 1, perSec)), Event(now, SweepOp(olderThan)), Event(now, Take("r", 1, perSec))]
  }

  lemma RunOfThree(name: string, e1: Event, e2: Event, e3: Event)
    ensures Run(name, [e1, e2, e3]) == Next(Next(Next(START, name, e1), name, e2), name, e3)
  {
    assert [e1, e2, e3][..2] == [e1, e2] && [e1, e2][..1] == [e1] && [e1][..0] == [];
    assert Run(name, [e1]) == Next(START, name, e1);
    assert Run(name, [e1, e2]) == Next(Next(START, name, e1), name, e2);
  }

  lemma SweepBetweenSteps(perSec: int, now: int, olderThan: int)
    requires perSec >= 1 && !Spares(now, perSec, olderThan)
    ensures var es := SweepBetween(perSec, now, olderThan);
            Next(Next(Next(START, "r", es[0]), "r", es[1]), "r", es[2]).admitted == [now, now]
  {
    hide WindowStart, Before;
    var es := SweepBetween(perSec, now, olderThan);
    var k := ("r", WindowStart(now, perSec));
    var w1 := World(map[k := 1], now, [now], [now]);
    assert Next(START, "r", es[0]) == w1;
    assert k in Stale(w1.rows, olderThan, now);
    assert Next(w1, "r", es[1]) == w1.(rows := map[]);
    assert [now] + [now] == [now, now];
  }

  lemma SweepBetweenAdmits(perSec: int, now: int, olderThan: int)
    requires perSec >= 1 && now >= 0 && !Spares(now, perSec, olderThan)
    ensures Admitted(SweepBetween(perSec, now, olderThan), "r", WindowStart(now, perSec), perSec) == 2
  {
    hide WindowStart, Window, Truncated, Count, Next, Run, Spares, Before;
    var window := WindowStart(now, perSec);
    CurrentWindow(now, perSec);
    SweepBetweenSteps(perSec, now, olderThan);
    var es := SweepBetween(perSec, now, olderThan);
    RunOfThree("r", es[0], es[1], es[2]);
    assert [] + [now] == [now] && [now] + [now] == [now, now];
    CountAppend([now], now, window, window + perSec);
    CountAppend([], now, window, window + perSec);
    NoTimes(window, window + perSec);
  }

  lemma NoTimes(lo: int, hi: int)
    ensures Count([], lo, hi) == 0
  {}

  /** The exact condition on a sweep: windows keep to their limit in every run if and only if it
      spares the current window. */
  lemma SweepIsSafeWhen(perSec: int, now: int, olderThan: int)
    requires perSec >= 1 && now >= 0
    ensures SafeToSweep(perSec, now, olderThan) <==> Spares(now, perSec, olderThan)
  {
    hide Run, Admitted, Called, Window, Spares;
    if Spares(now, perSec, olderThan) {
      forall es, name, limit, n | Monotone(es) && Fixed(es, name, limit, perSec) && SweepsAt(es, now, olderThan)
        ensures Admitted(es, name, Window(n, perSec), perSec)
                == Min(Allowance(limit), Called(es, name, Window(n, perSec), perSec))
      {
        WindowAdmits(es, name, limit, perSec, n);
      }
    } else {
      var es := SweepBetween(perSec, now, olderThan);
      var n := Truncated(now, perSec);
      SweepBetweenAdmits(perSec, now, olderThan);
      assert Monotone(es) && Fixed(es, "r", 1, perSec) && SweepsAt(es, now, olderThan);
      assert Admitted(es, "r", Window(n, perSec), perSec) > Min(Allowance(1), Called(es, "r", Window(n, perSec), perSec));
    }
  }

  /** As long as the cutoff has as many digits as the window's start, that means: the sweep goes back
      at least to the start of the window. */
  lemma SparesWhen(now: int, perSec: int, olderThan: int)
    requires perSec >= 1 && SameDigits(WindowStart(now, perSec), now - olderThan)
    ensures Spares(now, perSec, olderThan) <==> olderThan >= now - WindowStart(now, perSec)
  {
    BeforeIsLess(WindowStart(now, perSec), now - olderThan);
    hide WindowStart, Before;
  }

  /** So, digits permitting, a sweep is safe at every moment if and only if it spares the last
      perSec - 1 seconds. */
  lemma SweepsMustBeOld(perSec: int, olderThan: int)
    requires perSec >= 1
    ensures (forall now | now >= 0 && SameDigits(WindowStart(now, perSec), now - olderThan) :: SafeToSweep(perSec, now, olderThan))
            <==> olderThan >= perSec - 1
  {
    hide SafeToSweep, WindowStart, SameDigits, Spares;
    if olderThan >= perSec - 1 {
      forall now | now >= 0 && SameDigits(WindowStart(now, perSec), now - olderThan)
        ensures SafeToSweep(perSec, now, olderThan)
      {
        CurrentWindow(now, perSec);
        SparesWhen(now, perSec, olderThan);
        SweepIsSafeWhen(perSec, now, olderThan);
      }
    } else {
      var now := LastSecondOfWindow(perSec, olderThan);
      SparesWhen(now, perSec, olderThan);
      SweepIsSafeWhen(perSec, now, olderThan);
    }
  }

  /** Some window ends without gaining a digit in the time that the sweep would have it go on. */
  lemma LastSecondOfWindow(perSec: int, olderThan: int) returns (now: int)
    requires perSec >= 1 && olderThan < perSec - 1
    ensures now >= 0 && SameDigits(WindowStart(now, perSec), now - olderThan)
    ensures now == WindowStart(now, perSec) + perSec - 1
  {
    var ahead := perSec - 1 - olderThan;
    var n := Arithmetic.Pow10(ahead);
    Arithmetic.Pow10Exceeds(ahead);
    var start := Window(n, perSec);
    assert start == perSec * n;
    LeadingDigits(perSec, ahead, ahead);
    LeadingDigits(perSec, ahead, 0);
    now := start + perSec - 1;
    CurrentWindow(now, perSec);
    hide WindowStart, Window;
    assert start <= now < start + perSec;
  }

  lemma WindowOfToday()
    ensures WindowStart(1_760_000_000, 60) == 1_759_999_980
  {
    DivideNow(1_760_000_000, 60);
    hide Truncated;
    assert 1_760_000_000 / 60 == 29_333_333;
  }

  /** With fewer digits in the cutoff it is not safe however old: 800 million seconds reset the
      windows of today. */
  lemma FarSweepResetsWindows()
    ensures !SafeToSweep(60, 1_760_000_000, 800_000_000)
  {
    FewerDigitsSortLater();
    WindowOfToday();
    hide Before, SafeToSweep, WindowStart;
    SweepIsSafeWhen(60, 1_760_000_000, 800_000_000);
  }
}
