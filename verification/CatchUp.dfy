/** Schedule.NextAfter on instants in nanoseconds, and the scheduler's catch-up loop over it. */
module CatchUp {
  import Arithmetic
  import opened Calendar
  import opened CronNext
  import opened Schedules

  /** What every schedule the parser accepts satisfies, unless a step of its months wrapped and December
      is not among them. */
  predicate SearchableSchedule(s: Schedule) {
    s.Cron? ==> Searchable(s.cron)
  }

  /** The schedule fires again after any instant. */
  predicate Recurs(s: Schedule) {
    if s.Cron? then Satisfiable(s.cron) else s.interval > 0
  }

  predicate FiresInstant(c: CronSchedule, t: int) {
    t % NANOS_PER_SECOND == 0 && Fires(c, t / NANOS_PER_SECOND)
  }

  /** t is a firing of the schedule counted from the firing (or start) at `fire`. */
  ghost predicate FiresAt(s: Schedule, fire: int, t: int) {
    match s
    case Cron(c) => FiresInstant(c, t)
    case Interval(d, _) => exists k: nat :: k >= 1 && t == Boundary(fire, d, k)
  }

  function Boundary(fire: int, d: int, k: nat): int {
    fire + k * d
  }

  lemma {:induction false} LeastFiringFrom(c: CronSchedule, from: int, start: int, t: int) returns (n: int)
    requires from < start * NANOS_PER_SECOND && start <= t && Fires(c, t)
    requires forall u :: from < u * NANOS_PER_SECOND && u < start ==> !Fires(c, u)
    ensures IsNextFiring(c, from, n)
    decreases t - start
  {
    hide Fires;
    if Fires(c, start) {
      n := start;
    } else {
      n := LeastFiringFrom(c, from, start + 1, t);
    }
  }

  lemma NextFiringExists(c: CronSchedule, from: int) returns (n: int)
    requires Searchable(c) && Satisfiable(c)
    ensures IsNextFiring(c, from, n)
  {
    hide Fires, Satisfiable, Searchable, IsNextFiring;
    var second := from / NANOS_PER_SECOND;
    var t := FiringWithinCentury(c, second);
    n := LeastFiringFrom(c, from, second + 1, t);
  }

  ghost function FirstFiring(c: CronSchedule, from: int): (n: int)
    requires Searchable(c) && Satisfiable(c)
    ensures IsNextFiring(c, from, n)
  {
    hide IsNextFiring, Satisfiable, Searchable;
    assert exists n :: IsNextFiring(c, from, n) by { var _ := NextFiringExists(c, from); }
    var n :| IsNextFiring(c, from, n);
    n
  }

  /** Schedule.NextAfter: for a cron schedule that never fires, the zero time 0. */
  ghost function NextFire(s: Schedule, t: int): int
    requires SearchableSchedule(s)
  {
    match s
    case Interval(d, _) => t + d
    case Cron(c) =>
      if Satisfiable(c) then FirstFiring(c, t) * NANOS_PER_SECOND else 0
  }

  lemma NextFiringUnique(c: CronSchedule, from: int, m: int, n: int)
    requires IsNextFiring(c, from, m) && IsNextFiring(c, from, n)
    ensures m == n
  {
    hide Fires;
  }

  method NextAfter(s: Schedule, t: int) returns (next: int)
    requires SearchableSchedule(s)
    ensures next == NextFire(s, t)
  {
    hide IsNextFiring, Satisfiable, Searchable;
    match s
    case Interval(d, _) =>
      next := t + d;
    case Cron(c) =>
      var n := CronNext.NextAfter(c, t);
      if Satisfiable(c) {
        NextFiringUnique(c, t, FirstFiring(c, t), n);
      }
      next := n * NANOS_PER_SECOND;
  }

  lemma WholeSecondsOnly(c: CronSchedule, t: int, n: int)
    requires IsNextFiring(c, t, n)
    ensures t < n * NANOS_PER_SECOND && FiresInstant(c, n * NANOS_PER_SECOND)
    ensures forall u :: t < u < n * NANOS_PER_SECOND ==> !FiresInstant(c, u)
  {
    hide Fires;
    Arithmetic.DivMod(NANOS_PER_SECOND, n, 0);
    forall u | t < u < n * NANOS_PER_SECOND ensures !FiresInstant(c, u) {
      var second := u / NANOS_PER_SECOND;
      if u % NANOS_PER_SECOND == 0 {
        assert t < second * NANOS_PER_SECOND && second < n;
      }
    }
  }

  lemma CronNextFireIsFirst(s: Schedule, t: int)
    requires s.Cron? && SearchableSchedule(s) && Recurs(s)
    ensures t < NextFire(s, t) && FiresAt(s, t, NextFire(s, t))
    ensures forall u :: t < u < NextFire(s, t) ==> !FiresAt(s, t, u)
  {
    hide IsNextFiring, Satisfiable, Searchable, FiresInstant;
    WholeSecondsOnly(s.cron, t, FirstFiring(s.cron, t));
  }

  lemma IntervalNextFireIsFirst(s: Schedule, t: int)
    requires s.Interval? && Recurs(s)
    ensures t < NextFire(s, t) && FiresAt(s, t, NextFire(s, t))
    ensures forall u :: t < u < NextFire(s, t) ==> !FiresAt(s, t, u)
  {
    assert NextFire(s, t) == Boundary(t, s.interval, 1);
    forall k: nat | k >= 1 ensures Boundary(t, s.interval, k) >= t + s.interval {
      assert k * s.interval >= s.interval;
    }
  }

  /** A recurring schedule's next firing is the first one after t. */
  lemma NextFireIsFirst(s: Schedule, t: int)
    requires SearchableSchedule(s) && Recurs(s)
    ensures t < NextFire(s, t) && FiresAt(s, t, NextFire(s, t))
    ensures forall u :: t < u < NextFire(s, t) ==> !FiresAt(s, t, u)
  {
    hide *;
    if s.Cron? { CronNextFireIsFirst(s, t); } else { IntervalNextFireIsFirst(s, t); }
  }

  /** Moving the start on to the next firing changes no firing after that. */
  lemma FiringsCarryOver(s: Schedule, t: int, u: int)
    requires SearchableSchedule(s) && Recurs(s) && NextFire(s, t) < u
    ensures FiresAt(s, t, u) <==> FiresAt(s, NextFire(s, t), u)
  {
    hide Fires, Satisfiable, Searchable, IsNextFiring;
    if s.Interval? {
      var d := s.interval;
      if FiresAt(s, t, u) {
        var k: nat :| k >= 1 && u == Boundary(t, d, k);
        assert k > 1;
        assert u == Boundary(t + d, d, k - 1);
      }
      if FiresAt(s, t + d, u) {
        var k: nat :| k >= 1 && u == Boundary(t + d, d, k);
        assert u == Boundary(t, d, k + 1);
      }
    }
  }

  /** t is the least firing that is after `fire` and not before `now`. */
  ghost predicate IsCatchUp(s: Schedule, fire: int, now: int, t: int) {
    && fire < t && now <= t && FiresAt(s, fire, t)
    && forall u :: fire < u < t && now <= u ==> !FiresAt(s, fire, u)
  }

  /** The schedule recurs, or one step is enough; for a cron schedule that never fires that step
      goes to the zero time. */
  predicate LoopEnds(s: Schedule, fire: int, now: int) {
    Recurs(s) || if s.Cron? then now <= 0 else fire + s.interval >= now
  }

  lemma StepOrDone(s: Schedule, fire: int, now: int)
    requires SearchableSchedule(s) && LoopEnds(s, fire, now)
    ensures NextFire(s, fire) < now ==> Recurs(s) && fire < NextFire(s, fire)
  {
    if Recurs(s) { NextFireIsFirst(s, fire); }
    hide FiresAt, Satisfiable, Searchable, IsNextFiring;
  }

  /** What the scheduler's loop arrives at. */
  ghost function CaughtUp(s: Schedule, fire: int, now: int): int
    requires SearchableSchedule(s) && LoopEnds(s, fire, now)
    decreases if fire < now then now - fire else 0
  {
    StepOrDone(s, fire, now);
    var next := NextFire(s, fire);
    if next < now then CaughtUp(s, next, now) else next
  }

  lemma {:induction false} CaughtUpIsCatchUp(s: Schedule, fire: int, now: int)
    requires SearchableSchedule(s) && Recurs(s)
    ensures IsCatchUp(s, fire, now, CaughtUp(s, fire, now))
    decreases if fire < now then now - fire else 0
  {
    hide FiresAt, NextFire, SearchableSchedule, Recurs;
    NextFireIsFirst(s, fire);
    var next := NextFire(s, fire);
    if next < now {
      CaughtUpIsCatchUp(s, next, now);
      var r := CaughtUp(s, next, now);
      forall u | next < u ensures FiresAt(s, fire, u) <==> FiresAt(s, next, u) {
        FiringsCarryOver(s, fire, u);
      }
    }
  }

  /** The loop of tick that advances next_fire_at past what was missed. */
  method Advance(s: Schedule, fire: int, now: int) returns (next: int)
    requires SearchableSchedule(s) && LoopEnds(s, fire, now)
    ensures next == CaughtUp(s, fire, now)
  {
    hide SearchableSchedule, Recurs, NextFire, FiresAt;
    StepOrDone(s, fire, now);
    next := NextAfter(s, fire);
    while next < now
      invariant next < now ==> Recurs(s)
      invariant CaughtUp(s, fire, now) == if next < now then CaughtUp(s, next, now) else next
      decreases now - next
    {
      NextFireIsFirst(s, next);
      next := NextAfter(s, next);
    }
  }

  /** Firing moves the boundary up exactly when the schedule recurs, or else when it lies before the
      zero time that a cron schedule which never fires moves to. */
  lemma MovesUpExactlyWhen(s: Schedule, fire: int, now: int)
    requires SearchableSchedule(s) && LoopEnds(s, fire, now)
    ensures CaughtUp(s, fire, now) > fire <==> Recurs(s) || (s.Cron? && fire < 0)
  {
    if Recurs(s) {
      CaughtUpIsCatchUp(s, fire, now);
      hide Satisfiable, CaughtUp, FiresAt;
    } else {
      StepOrDone(s, fire, now);
      hide Satisfiable, Searchable;
    }
  }

  /** The witness: an interval that wrapped to zero fires one boundary again and again. */
  lemma ZeroIntervalFiresAgain(fire: int)
    ensures var r := ScheduleOf(ZERO_INTERVAL);
            && r.Ok? && SearchableSchedule(r.value) && LoopEnds(r.value, fire, fire)
            && CaughtUp(r.value, fire, fire) == fire
  {
    LongIntervalIsZero();
    hide ScheduleOf;
  }

  /** An interval never drifts: it stays a whole number of intervals from where it was, the
      least positive number that reaches now. */
  lemma {:induction false} IntervalKeepsPhase(s: Schedule, fire: int, now: int)
    requires s.Interval? && s.interval > 0
    ensures var late := if now <= fire then 0 else (now - fire + s.interval - 1) / s.interval;
            var k := if late < 1 then 1 else late;
            CaughtUp(s, fire, now) == fire + k * s.interval
    decreases if fire < now then now - fire else 0
  {
    var d := s.interval;
    if fire + d < now {
      IntervalKeepsPhase(s, fire + d, now);
      Arithmetic.DivStep(d, now - fire - 1);
      Arithmetic.DivStep(d, now - fire - 1 - d);
      var late := (now - fire - 1) / d;
      assert late >= 1;
      assert (late + 1) * d == late * d + d;
    } else if fire < now {
      Arithmetic.DivMod(d, 1, now - fire - 1);
    }
  }

  // The loop of tick on a schedule that need not recur.

  ghost function Iterate(s: Schedule, fire: int, steps: nat): int
    requires SearchableSchedule(s)
  {
    if steps == 0 then fire else NextFire(s, Iterate(s, fire, steps - 1))
  }

  /** The loop ends exactly when LoopEnds says so; a cron schedule that never fires holds the
      scheduler in it for ever. */
  lemma LoopEndsExactlyWhen(s: Schedule, fire: int, now: int)
    requires SearchableSchedule(s)
    ensures (exists k: nat :: k >= 1 && Iterate(s, fire, k) >= now) <==> LoopEnds(s, fire, now)
  {
    assert !Recurs(s) ==> (NextFire(s, fire) >= now <==> LoopEnds(s, fire, now));
    hide NextFire, Recurs, SearchableSchedule;
    if Recurs(s) {
      var k := if now > fire then now - fire else 1;
      IterateReaches(s, fire, k);
      assert Iterate(s, fire, k) >= now;
    } else {
      forall k: nat | k >= 1 ensures Iterate(s, fire, k) <= NextFire(s, fire) {
        IterateStuck(s, fire, k);
      }
      assert Iterate(s, fire, 0) == fire && Iterate(s, fire, 1) == NextFire(s, fire);
      assert NextFire(s, fire) >= now ==> Iterate(s, fire, 1) >= now;
      if k: nat :| k >= 1 && Iterate(s, fire, k) >= now { assert NextFire(s, fire) >= now; }
    }
  }

  lemma {:induction false} IterateReaches(s: Schedule, fire: int, steps: nat)
    requires SearchableSchedule(s) && Recurs(s)
    ensures Iterate(s, fire, steps) >= fire + steps
  {
    hide NextFire, Recurs, SearchableSchedule, FiresAt;
    if steps == 0 {
    } else {
      IterateReaches(s, fire, steps - 1);
      NextFireIsFirst(s, Iterate(s, fire, steps - 1));
    }
  }

  lemma {:induction false} IterateStuck(s: Schedule, fire: int, k: nat)
    requires SearchableSchedule(s) && !Recurs(s) && k >= 1
    ensures Iterate(s, fire, k) <= NextFire(s, fire)
  {
    hide Satisfiable, Searchable, IsNextFiring;
    if k > 1 { IterateStuck(s, fire, k - 1); }
  }
}
