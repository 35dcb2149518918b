/** What the scheduler's ticks do over whole runs, whoever makes them. */
module SchedulerRuns {
  import opened Base
  import opened Calendar
  import CronNext
  import opened JobEffects
  import opened Jobs
  import opened Schedules
  import Text
  import opened CatchUp
  import opened Timestamps
  import opened Scheduler

  /** What a successful tick has done to one listed task. */
  ghost predicate Fired(s: Store, s': Store, name: string, now: int, id: Id)
    requires name in s.tasks
  {
    var task := s.tasks[name];
    var schedule := ScheduleOf(task.cronExpr);
    && schedule.Ok? && SearchableSchedule(schedule.value) && LoopEnds(schedule.value, FireTime(task, now), now)
    && name in s'.tasks
    && s'.tasks[name] == task.(nextFireAt := CaughtUp(schedule.value, FireTime(task, now), now))
    && id !in s.jobs.live && id in s'.jobs.live && IsTicksJob(s'.jobs.live[id], task, now)
  }

  /** The job that a tick at `now` enqueues for the task: three attempts, nobody's yet, and to be had
      from the tick on until its time to live is over, to the millisecond. */
  ghost predicate IsTicksJob(job: Job, task: Task, now: int) {
    && job.queue == task.queue && job.payload == task.payload && job.priority == task.priority
    && job.maxAttempts == 3 && job.attempts == 0
    && job.state.Pending? && job.worker.None? && job.claimExpires.None?
    && var end := now + task.expiresS * 1_000_000_000;
       && (forall t :: now <= t && (task.expiresS > 0 ==> t + 1_000_000 <= end) ==> Claimable(job, task.queue, Stamp(t)))
       && (forall t :: Claimable(job, task.queue, Stamp(t)) ==> now < t + 1_000_000 && (task.expiresS > 0 ==> t < end))
  }

  lemma JobForIsTicksJob(task: Task, now: int)
    ensures IsTicksJob(JobFor(task, now), task, now)
  {
    var job := JobFor(task, now);
    hide Claimable;
    forall t ensures Claimable(job, task.queue, Stamp(t)) <==> job.runAt <= Stamp(t) && (job.expiresAt.None? || Stamp(t) < job.expiresAt.value) {
      NewJobClaimable(job, task.queue, Stamp(t));
    }
  }

  /** A successful tick fires each listed task once, one job each with its own id and a notice on its
      queue's channel, moves its boundary to where the catch-up ends, and touches nothing else. */
  lemma {:induction false} FireAllEffect(s: Store, order: seq<string>, now: int, ids: map<string, Id>)
    requires Listed(order, s.tasks, ids, now)
    requires FireAll(s, order, now, ids).Ok?
    ensures var s' := FireAll(s, order, now, ids).value;
            && (forall i :: 0 <= i < |order| ==> Fired(s, s', order[i], now, ids[order[i]]))
            && s'.tasks.Keys == s.tasks.Keys
            && (forall name :: name in s.tasks && name !in order ==> s'.tasks[name] == s.tasks[name])
            && |s'.jobs.live| == |s.jobs.live| + |order|
            && Announced(s, s', order)
            && (forall id :: id in s.jobs.live ==> id in s'.jobs.live && s'.jobs.live[id] == s.jobs.live[id])
            && s'.jobs.dead == s.jobs.dead
    decreases |order|
  {
    hide TaskEnds, JobFor, IsTicksJob, CaughtUp, ScheduleOf, SearchableSchedule, LoopEnds;
    if order == [] {
      FireNone(s, now, ids);
      assert Announced(s, s, []);
    } else {
      FireStep(s, order, now, ids);
      var name := order[0];
      var s1 := FireOne(s, name, now, ids[name]).value;
      FireOneEffect(s, name, now, ids[name]);
      assert name !in order[1..];
      assert forall i :: 0 <= i < |order[1..]| ==> order[1..][i] == order[i + 1];
      assert forall i :: 0 <= i < |order| ==> order[i] in ids && order[i] in s.tasks;
      hide FireOne, Listed, Announced;
      FireAllEffect(s1, order[1..], now, ids);
      var s' := FireAll(s, order, now, ids).value;
      forall i | 0 < i < |order| ensures order[i] != name { assert order[i] == order[1..][i - 1]; }
      AnnounceFirst(s, s1, s', order);
      hide FireAll, Distinct;
      assert Fired(s, s', name, now, ids[name]);
      forall i | 1 <= i < |order| ensures Fired(s, s', order[i], now, ids[order[i]]) {
        assert order[i] == order[1..][i - 1] && order[i] != name;
      }
    }
  }

  /** The notices that a tick adds: one for each listed task, on the channel of the task's queue. */
  ghost predicate Announced(s: Store, s': Store, order: seq<string>)
    requires forall i :: 0 <= i < |order| ==> order[i] in s.tasks
  {
    && |s'.jobs.notices| == |s.jobs.notices| + |order| && s.jobs.notices <= s'.jobs.notices
    && forall i :: 0 <= i < |order| ==>
         s'.jobs.notices[|s.jobs.notices| + i] == Notice("ganso:" + s.tasks[order[i]].queue, "new")
  }

  lemma AnnounceFirst(s: Store, s1: Store, s': Store, order: seq<string>)
    requires order != [] && forall i :: 0 <= i < |order| ==> order[i] in s.tasks && order[i] in s1.tasks
    requires forall i :: 0 < i < |order| ==> s1.tasks[order[i]] == s.tasks[order[i]]
    requires s1.jobs.notices == s.jobs.notices + [Notice("ganso:" + s.tasks[order[0]].queue, "new")]
    requires Announced(s1, s', order[1..])
    ensures Announced(s, s', order)
  {
    forall i | 0 <= i < |order|
      ensures s'.jobs.notices[|s.jobs.notices| + i] == Notice("ganso:" + s.tasks[order[i]].queue, "new")
    {
      if i > 0 { assert order[i] == order[1..][i - 1]; }
    }
  }

  lemma FireOneEffect(s: Store, name: string, now: int, id: Id)
    requires name in s.tasks && TaskEnds(s.tasks[name], now) && FireOne(s, name, now, id).Ok?
    ensures var s' := FireOne(s, name, now, id).value;
            && Fired(s, s', name, now, id)
            && s'.tasks.Keys == s.tasks.Keys
            && (forall n :: n in s.tasks && n != name ==> s'.tasks[n] == s.tasks[n])
            && |s'.jobs.live| == |s.jobs.live| + 1
            && s'.jobs.notices == s.jobs.notices + [Notice("ganso:" + s.tasks[name].queue, "new")]
            && s'.jobs.dead == s.jobs.dead
            && (forall i :: i in s.jobs.live ==> i in s'.jobs.live && s'.jobs.live[i] == s.jobs.live[i])
  {
    var s' := FireOne(s, name, now, id).value;
    assert s'.jobs.live.Keys == s.jobs.live.Keys + {id};
    JobForIsTicksJob(s.tasks[name], now);
    hide CaughtUp, IsTicksJob;
  }

  // Runs.

  /** Operations on the task table, and any change to the job tables by others. A tick's clock is
      its scheduler's own reading, so the clocks of ticks need not be in order. */
  datatype Op =
    | TickOp(now: int, order: seq<string>, ids: map<string, Id>)
    | AddOp(name: string, task: Task)
    | RemoveOp(name: string)
    | PauseOp(name: string)
    | ResumeOp(name: string, nextFireAt: int)
    | JobsOp(jobs: Tables)

  ghost predicate Legal(s: Store, op: Op) {
    op.TickOp? ==>
      && IsOrderOf(op.order, Due(s.tasks, op.now)) && Listed(op.order, s.tasks, op.ids, op.now)
  }

  ghost function Step(s: Store, op: Op): Store
    requires Legal(s, op)
  {
    match op
    case TickOp(now, order, ids) => TickOf(s, order, now, ids).0
    case AddOp(name, task) => s.(tasks := s.tasks[name := task])
    case RemoveOp(name) => s.(tasks := s.tasks - {name})
    case PauseOp(name) => if name in s.tasks then s.(tasks := s.tasks[name := s.tasks[name].(enabled := false)]) else s
    case ResumeOp(name, next) =>
      if name in s.tasks && !s.tasks[name].enabled then
        s.(tasks := s.tasks[name := s.tasks[name].(enabled := true, nextFireAt := next)])
      else s
    case JobsOp(jobs) => s.(jobs := jobs)
  }

  /** What the operations on one task do, as TaskTable's methods do it: the rest of the task, every
      other task and the jobs stay as they are. */
  lemma TaskStepActs(s: Store, op: Op, name: string)
    requires (op.AddOp? || op.RemoveOp? || op.PauseOp? || op.ResumeOp?) && op.name == name
    ensures var s' := Step(s, op);
            && s'.jobs == s.jobs
            && s'.tasks - {name} == s.tasks - {name}
            && (op.AddOp? ==> name in s'.tasks && s'.tasks[name] == op.task)
            && (op.RemoveOp? ==> name !in s'.tasks)
            && (op.PauseOp? || op.ResumeOp? ==> (name in s'.tasks <==> name in s.tasks))
            && (op.PauseOp? && name in s.tasks ==>
                  !s'.tasks[name].enabled && s'.tasks[name].(enabled := s.tasks[name].enabled) == s.tasks[name])
            && (op.ResumeOp? && name in s.tasks && s.tasks[name].enabled ==> s' == s)
            && (op.ResumeOp? && name in s.tasks && !s.tasks[name].enabled ==>
                  && s'.tasks[name].enabled && s'.tasks[name].nextFireAt == op.nextFireAt
                  && s'.tasks[name].(enabled := false, nextFireAt := s.tasks[name].nextFireAt) == s.tasks[name])
  {}

  ghost predicate LegalRun(s: Store, ops: seq<Op>)
    decreases |ops|
  {
    ops != [] ==> Legal(s, ops[0]) && LegalRun(Step(s, ops[0]), ops[1..])
  }

  ghost function Run(s: Store, ops: seq<Op>): Store
    requires LegalRun(s, ops)
    decreases |ops|
  {
    if ops == [] then s else Run(Step(s, ops[0]), ops[1..])
  }

  /** The boundary of the task that a step fires, if it fires it. */
  ghost function BoundaryOf(s: Store, op: Op, name: string): seq<int>
    requires Legal(s, op)
  {
    if op.TickOp? && name in op.order && name in s.tasks && TickOf(s, op.order, op.now, op.ids).1.Ok? then
      [s.tasks[name].nextFireAt]
    else []
  }

  /** The boundaries of the task that a run fires, in order. */
  ghost function Boundaries(s: Store, ops: seq<Op>, name: string): seq<int>
    requires LegalRun(s, ops)
    decreases |ops|
  {
    if ops == [] then [] else BoundaryOf(s, ops[0], name) + Boundaries(Step(s, ops[0]), ops[1..], name)
  }

  /** The operations that set a task's boundary anew. */
  predicate Resets(op: Op, name: string) {
    (op.AddOp? || op.RemoveOp? || op.ResumeOp?) && op.name == name
  }

  /** A failed tick changes nothing, and no tick fires a task that is not due. */
  lemma TickIsAtomic(s: Store, op: Op, name: string)
    requires op.TickOp? && Legal(s, op)
    ensures TickOf(s, op.order, op.now, op.ids).1.Err? ==> Step(s, op) == s
    ensures BoundaryOf(s, op, name) != [] <==>
              TickOf(s, op.order, op.now, op.ids).1.Ok? && name in s.tasks && s.tasks[name].enabled
              && DueByText(s.tasks[name].nextFireAt, op.now)
  {
    hide FireAll, DueByText, Printable, Listed;
    assert name in op.order <==> name in Due(s.tasks, op.now);
  }

  /** The task's schedule, if its expression parses, is one that fires again and again. */
  ghost predicate TaskRecurs(task: Task) {
    var schedule := ScheduleOf(task.cronExpr);
    schedule.Ok? ==> Recurs(schedule.value)
  }

  /** One step fires at most the current boundary, and firing it moves the boundary up, to the
      least firing that is not before the tick's clock: what was missed on the way is gone. */
  lemma StepAdvances(s: Store, op: Op, name: string)
    requires Legal(s, op) && name in s.tasks && TaskRecurs(s.tasks[name]) && !Resets(op, name)
    ensures name in Step(s, op).tasks && Step(s, op).tasks[name].cronExpr == s.tasks[name].cronExpr
    ensures BoundaryOf(s, op, name) == [] ==> Step(s, op).tasks[name].nextFireAt == s.tasks[name].nextFireAt
    ensures BoundaryOf(s, op, name) != [] ==>
              var schedule := ScheduleOf(s.tasks[name].cronExpr);
              && BoundaryOf(s, op, name) == [s.tasks[name].nextFireAt] && schedule.Ok?
              && IsCatchUp(schedule.value, FireTime(s.tasks[name], op.now), op.now, Step(s, op).tasks[name].nextFireAt)
  {
    if op.TickOp? && TickOf(s, op.order, op.now, op.ids).1.Ok? {
      FireAllEffect(s, op.order, op.now, op.ids);
      hide FireAll, Listed, Due, IsDue, IsCatchUp, CaughtUp, ScheduleOf, IsOrderOf, AllPrintable, SearchableSchedule, Recurs;
      if name in op.order {
        var i :| 0 <= i < |op.order| && op.order[i] == name;
        CaughtUpIsCatchUp(ScheduleOf(s.tasks[name].cronExpr).value, FireTime(s.tasks[name], op.now), op.now);
      }
    }
  }

  lemma StepMovesUp(s: Store, op: Op, name: string)
    requires Legal(s, op) && name in s.tasks && TaskRecurs(s.tasks[name]) && !Resets(op, name)
    requires BoundaryOf(s, op, name) != [] ==> Printable(s.tasks[name].nextFireAt)
    ensures name in Step(s, op).tasks && Step(s, op).tasks[name].cronExpr == s.tasks[name].cronExpr
    ensures var before, after := s.tasks[name].nextFireAt, Step(s, op).tasks[name].nextFireAt;
            (BoundaryOf(s, op, name) == [] && after == before) || (BoundaryOf(s, op, name) == [before] && before < after)
  {
    hide FiresAt, ScheduleOf, Step, BoundaryOf, Legal, Resets;
    StepAdvances(s, op, name);
  }

  lemma ReadBackSplits(first: seq<int>, rest: seq<int>, boundary: int)
    requires AllReadBack(first + rest)
    ensures AllReadBack(first) && AllReadBack(rest)
    ensures first == [boundary] ==> Printable(boundary)
  {
    hide Printable;
    assert forall i :: 0 <= i < |first| ==> (first + rest)[i] == first[i];
    assert forall i :: 0 <= i < |rest| ==> (first + rest)[|first| + i] == rest[i];
    assert first == [boundary] ==> first[0] == boundary;
  }

  lemma SameRecurs(task: Task, task': Task)
    requires TaskRecurs(task) && task'.cronExpr == task.cronExpr
    ensures TaskRecurs(task')
  {}

  predicate AllReadBack(boundaries: seq<int>) {
    forall i :: 0 <= i < |boundaries| ==> Printable(boundaries[i])
  }

  /** At most once per boundary: between Add, Remove and Resume of a task, whatever ticks are made
      by any number of schedulers and whatever else happens, the boundaries fired are strictly
      increasing, none before the boundary at the start, all before the boundary at the end. The
      fired ones have years of four digits, as they do in ordinary times. */
  lemma {:induction false} BoundariesIncrease(s: Store, ops: seq<Op>, name: string)
    requires LegalRun(s, ops) && name in s.tasks && TaskRecurs(s.tasks[name])
    requires forall i :: 0 <= i < |ops| ==> !Resets(ops[i], name)
    requires AllReadBack(Boundaries(s, ops, name))
    ensures var fired, s' := Boundaries(s, ops, name), Run(s, ops);
            && name in s'.tasks
            && StrictlyIncreasing(fired) && Within(fired, s.tasks[name].nextFireAt, s'.tasks[name].nextFireAt)
            && s.tasks[name].nextFireAt <= s'.tasks[name].nextFireAt
    decreases |ops|
  {
    if ops == [] {
    } else {
      RunFirst(s, ops, name);
      hide *;
      var s1 := Step(s, ops[0]);
      ReadBackSplits(BoundaryOf(s, ops[0], name), Boundaries(s1, ops[1..], name), s.tasks[name].nextFireAt);
      StepMovesUp(s, ops[0], name);
      SameRecurs(s.tasks[name], s1.tasks[name]);
      assert forall i :: 0 <= i < |ops[1..]| ==> ops[1..][i] == ops[i + 1];
      BoundariesIncrease(s1, ops[1..], name);
      var rest, end := Boundaries(s1, ops[1..], name), Run(s, ops).tasks[name].nextFireAt;
      PrependBoundary(BoundaryOf(s, ops[0], name), rest, s.tasks[name].nextFireAt, s1.tasks[name].nextFireAt, end);
    }
  }

  lemma RunFirst(s: Store, ops: seq<Op>, name: string)
    requires ops != [] && LegalRun(s, ops)
    ensures Legal(s, ops[0]) && LegalRun(Step(s, ops[0]), ops[1..])
    ensures Run(s, ops) == Run(Step(s, ops[0]), ops[1..])
    ensures Boundaries(s, ops, name) == BoundaryOf(s, ops[0], name) + Boundaries(Step(s, ops[0]), ops[1..], name)
  {
    hide Legal, Step, BoundaryOf;
  }

  predicate Within(boundaries: seq<int>, from: int, to: int) {
    forall i :: 0 <= i < |boundaries| ==> from <= boundaries[i] < to
  }

  lemma PrependBoundary(first: seq<int>, rest: seq<int>, from: int, next: int, to: int)
    requires StrictlyIncreasing(rest) && Within(rest, next, to) && next <= to
    requires (first == [] && next == from) || (first == [from] && from < next)
    ensures StrictlyIncreasing(first + rest) && Within(first + rest, from, to)
  {}

  // Four digits are enough.

  /** From the year 317 into the year 9507. */
  predicate OrdinaryTime(t: int) {
    10_000_000_000 <= t / NANOS_PER_SECOND <= 300_000_000_000
  }

  lemma YearBefore(second: int, year: int)
    requires second < MonthStart(12 * year) * SECONDS_PER_DAY
    ensures Year(second) < year
  {
    hide MonthStart, MonthIndex;
    var index := MonthIndex(DayOf(second));
    if index >= 12 * year {
      if index > 12 * year { MonthStartMonotone(12 * year, index); }
      assert false;
    }
  }

  lemma OrdinaryYear(t: int)
    requires OrdinaryTime(t)
    ensures 0 <= Year(t / NANOS_PER_SECOND) < 9900
  {
    assert MonthStart(12 * 9900) == 3615535;
    hide MonthStart, Year;
    YearBefore(t / NANOS_PER_SECOND, 9900);
    FourDigits(t / NANOS_PER_SECOND);
  }

  lemma CronNextIsPrintable(c: CronNext.CronSchedule, t: int)
    requires OrdinaryTime(t) && CronNext.Searchable(c) && CronNext.Satisfiable(c)
    ensures Printable(FirstFiring(c, t) * NANOS_PER_SECOND)
  {
    var n := FirstFiring(c, t);
    OrdinaryYear(t);
    hide Year, CronNext.Searchable, CronNext.Satisfiable, CronNext.Fires;
    var u := CronNext.FiringWithinCentury(c, t / NANOS_PER_SECOND);
    assert n <= u;
    CronNext.YearsInOrder(n, u);
    CronNext.YearsInOrder(t / NANOS_PER_SECOND, n);
    FourDigits(n);
    assert n * NANOS_PER_SECOND / NANOS_PER_SECOND == n;
  }

  /** The boundary that Add or Resume stores at an ordinary time has a year of four digits. */
  lemma NextFireIsPrintable(expr: string, t: int)
    requires OrdinaryTime(t) && ScheduleOf(expr).Ok? && SearchableSchedule(ScheduleOf(expr).value)
    ensures Printable(NextFire(ScheduleOf(expr).value, t))
  {
    var s := ScheduleOf(expr).value;
    if s.Cron? {
      hide ScheduleOf, CronNext.Searchable, CronNext.Satisfiable, CronNext.IsNextFiring;
      if CronNext.Satisfiable(s.cron) { CronNextIsPrintable(s.cron, t); }
    } else {
      ParsedIntervalFits(expr);
      hide ScheduleOf;
      assert Text.MIN_INT64 <= s.interval <= Text.MAX_INT64;
    }
  }

  lemma ParsedIntervalFits(expr: string)
    requires ScheduleOf(expr).Ok? && ScheduleOf(expr).value.Interval?
    ensures Text.MIN_INT64 <= ScheduleOf(expr).value.interval <= Text.MAX_INT64
  {}

  lemma {:induction false} CaughtUpIsPrintable(expr: string, fire: int, now: int)
    requires OrdinaryTime(fire) && OrdinaryTime(now) && ScheduleOf(expr).Ok?
    requires SearchableSchedule(ScheduleOf(expr).value) && LoopEnds(ScheduleOf(expr).value, fire, now)
    ensures Printable(CaughtUp(ScheduleOf(expr).value, fire, now))
    decreases if fire < now then now - fire else 0
  {
    hide ScheduleOf, NextFire, SearchableSchedule, Recurs, Printable;
    var s := ScheduleOf(expr).value;
    NextFireIsPrintable(expr, fire);
    StepOrDone(s, fire, now);
    if NextFire(s, fire) < now { CaughtUpIsPrintable(expr, NextFire(s, fire), now); }
  }

  /** So does every boundary that a tick leaves, if its own clock and the boundaries it found due are
      ordinary: what the comparison of texts asks for is kept. */
  lemma TickKeepsPrintable(s: Store, order: seq<string>, now: int, ids: map<string, Id>)
    requires Listed(order, s.tasks, ids, now) && FireAll(s, order, now, ids).Ok? && AllPrintable(s.tasks)
    requires OrdinaryTime(now) && forall name :: name in order ==> name in s.tasks && OrdinaryTime(s.tasks[name].nextFireAt)
    ensures AllPrintable(FireAll(s, order, now, ids).value.tasks)
  {
    FireAllEffect(s, order, now, ids);
    var s' := FireAll(s, order, now, ids).value;
    hide FireAll, ScheduleOf, Listed, CaughtUp, SearchableSchedule, LoopEnds, OrdinaryTime, Printable;
    forall name | name in s'.tasks ensures Printable(s'.tasks[name].nextFireAt) {
      if name in order {
        var i :| 0 <= i < |order| && order[i] == name;
        assert Fired(s, s', order[i], now, ids[order[i]]);
        CaughtUpIsPrintable(s.tasks[name].cronExpr, s.tasks[name].nextFireAt, now);
      }
    }
  }
}
