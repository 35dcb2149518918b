/** The periodic-task table and the scheduler's operations on it. */
module Scheduler {
  import opened Base
  import opened Jobs
  import JobQueue
  import Calendar
  import CronNext
  import CronParse
  import opened Schedules
  import opened CatchUp
  import opened Timestamps
  import TextOrder

  /** A row of _ganso_scheduler_tasks. next_fire_at holds FormatTime(nextFireAt), as the code stores
      no other text there. */
  datatype Task = Task(
    queue: string,
    cronExpr: string,
    payload: string,
    priority: int,
    expiresS: int,
    nextFireAt: int,
    enabled: bool)

  datatype Store = Store(tasks: map<string, Task>, jobs: Tables)

  datatype TickError = EnqueueFailed | ParseFailed(error: CronParse.ParseError)

  /** enabled = 1 AND next_fire_at <= now, on text. */
  predicate IsDue(task: Task, now: int) {
    task.enabled && DueByText(task.nextFireAt, now)
  }

  predicate AllPrintable(tasks: map<string, Task>) {
    forall name :: name in tasks ==> Printable(tasks[name].nextFireAt)
  }

  /** Where the catch-up of a task starts: at its boundary, or at now if that does not parse. */
  function FireTime(task: Task, now: int): int {
    ReadBack(task.nextFireAt, now)
  }

  function Due(tasks: map<string, Task>, now: int): set<string> {
    set name | name in tasks && IsDue(tasks[name], now)
  }

  /** The catch-up loop of a tick ends for this task; for an expression that does not parse there is
      none. */
  ghost predicate TaskEnds(task: Task, now: int) {
    var s := ScheduleOf(task.cronExpr);
    s.Ok? ==> SearchableSchedule(s.value) && LoopEnds(s.value, FireTime(task, now), now)
  }

  /** The row's times are RFC3339Nano text; here they are cut to the millisecond, as other jobs' are.
      Timestamps.MixedTextOrder says what that leaves out. */
  function JobFor(task: Task, now: int): Job {
    NewJob(task.queue, task.payload, task.priority, Stamp(now), 3, Stamp(now),
           if task.expiresS > 0 then Some(Stamp(now + task.expiresS * Calendar.NANOS_PER_SECOND)) else None)
  }

  /** One due task: its job enqueued and its boundary moved on, or the error that stops the tick. */
  ghost function FireOne(s: Store, name: string, now: int, id: Id): Result<Store, TickError>
    requires name in s.tasks && TaskEnds(s.tasks[name], now)
  {
    var task := s.tasks[name];
    var (jobs, reply) := Enqueue(s.jobs, id, JobFor(task, now));
    if reply.Err? then Err(EnqueueFailed)
    else
      var schedule := ScheduleOf(task.cronExpr);
      if schedule.Err? then Err(ParseFailed(schedule.error))
      else
        var next := CaughtUp(schedule.value, FireTime(task, now), now);
        Ok(Store(s.tasks[name := task.(nextFireAt := next)], jobs))
  }

  /** The names are different tasks for which the catch-up ends, each with an id for its job. */
  ghost predicate Listed(names: seq<string>, tasks: map<string, Task>, ids: map<string, Id>, now: int) {
    && Distinct(names)
    && forall i :: 0 <= i < |names| ==> names[i] in tasks && names[i] in ids && TaskEnds(tasks[names[i]], now)
  }

  /** The due tasks in the order the SELECT returned them, each with its fresh id. */
  ghost function FireAll(s: Store, order: seq<string>, now: int, ids: map<string, Id>): Result<Store, TickError>
    requires Listed(order, s.tasks, ids, now)
    decreases |order|
  {
    if order == [] then Ok(s)
    else
      var fired :- FireOne(s, order[0], now, ids[order[0]]);
      FireAll(fired, order[1..], now, ids)
  }

  /** tick is one transaction: an error rolls all of it back. */
  ghost function TickOf(s: Store, order: seq<string>, now: int, ids: map<string, Id>): (Store, Result<(), TickError>)
    requires Listed(order, s.tasks, ids, now)
  {
    match FireAll(s, order, now, ids)
    case Ok(s') => (s', Ok(()))
    case Err(error) => (s, Err(error))
  }

  /** order lists the due tasks, each once. */
  ghost predicate IsOrderOf(order: seq<string>, due: set<string>) {
    && (forall name :: name in order <==> name in due)
    && Distinct(order)
  }

  /** t is an enabled task's boundary whose text is least. */
  ghost predicate IsLeastBoundary(tasks: map<string, Task>, t: int) {
    && (exists name :: name in tasks && tasks[name].enabled && tasks[name].nextFireAt == t)
    && (forall name :: name in tasks && tasks[name].enabled ==> DueByText(t, tasks[name].nextFireAt))
  }

  predicate SomeEnabled(tasks: map<string, Task>) {
    exists name :: name in tasks && tasks[name].enabled
  }

  /** The result of soonest: the least boundary read back, or the zero time if it does not parse or if
      there is none. */
  ghost predicate IsSoonest(tasks: map<string, Task>, soonest: int) {
    if SomeEnabled(tasks) then exists t :: IsLeastBoundary(tasks, t) && soonest == ReadBack(t, 0) else soonest == 0
  }

  class TaskTable {
    var tasks: map<string, Task>
    const db: JobQueue.Database

    constructor (db: JobQueue.Database)
      ensures this.db == db && tasks == map[]
    {
      this.db := db;
      tasks := map[];
    }

    function Snapshot(): Store
      reads this, db
    {
      Store(tasks, db.Snapshot())
    }

    /** Add: replaces a task of the same name entirely. */
    method Add(name: string, queue: string, schedule: Schedule, payload: string, priority: int, expiresS: int, now: int)
      requires SearchableSchedule(schedule)
      modifies this
      ensures tasks == old(tasks)[name := Task(queue, schedule.Expr(), payload, priority, expiresS, NextFire(schedule, now), true)]
    {
      var nextFire := NextAfter(schedule, now);
      tasks := tasks[name := Task(queue, schedule.Expr(), payload, priority, expiresS, nextFire, true)];
    }

    method Remove(name: string) returns (removed: bool)
      modifies this
      ensures removed <==> name in old(tasks)
      ensures tasks == old(tasks) - {name}
    {
      removed := name in tasks;
      tasks := tasks - {name};
    }

    method Pause(name: string) returns (changed: bool)
      modifies this
      ensures changed <==> name in old(tasks) && old(tasks)[name].enabled
      ensures tasks == if changed then old(tasks)[name := old(tasks)[name].(enabled := false)] else old(tasks)
    {
      if name in tasks && tasks[name].enabled {
        tasks := tasks[name := tasks[name].(enabled := false)];
        return true;
      }
      return false;
    }

    /** Resume: the boundary starts again from now. */
    method Resume(name: string, now: int) returns (r: Result<bool, CronParse.ParseError>)
      requires name in tasks && ScheduleOf(tasks[name].cronExpr).Ok? ==> SearchableSchedule(ScheduleOf(tasks[name].cronExpr).value)
      modifies this
      ensures r == if name !in old(tasks) || old(tasks)[name].enabled then Ok(false)
                   else if ScheduleOf(old(tasks)[name].cronExpr).Err? then Err(ScheduleOf(old(tasks)[name].cronExpr).error)
                   else Ok(true)
      ensures r == Ok(true) ==>
                var task := old(tasks)[name];
                tasks == old(tasks)[name := task.(enabled := true, nextFireAt := NextFire(ScheduleOf(task.cronExpr).value, now))]
      ensures r != Ok(true) ==> tasks == old(tasks)
    {
      if name !in tasks || tasks[name].enabled { return Ok(false); }
      hide ScheduleOf, NextFire, SearchableSchedule;
      var schedule :- ParseSchedule(tasks[name].cronExpr);
      var nextFire := NextAfter(schedule, now);
      tasks := tasks[name := tasks[name].(enabled := true, nextFireAt := nextFire)];
      return Ok(true);
    }

    /** The SELECT of tick: the due tasks in some order. */
    method SelectDue(now: int) returns (rows: seq<string>)
      ensures IsOrderOf(rows, Due(tasks, now))
    {
      hide IsDue;
      rows := [];
      var rest := Due(tasks, now);
      while rest != {}
        invariant rest <= Due(tasks, now)
        invariant forall name :: name in Due(tasks, now) <==> name in rows || name in rest
        invariant forall name :: name in rows ==> name !in rest
        invariant Distinct(rows)
        decreases rest
      {
        var name := Choose(rest);
        rows := rows + [name];
        rest := rest - {name};
      }
    }

    /** The body of tick's loop, for one due task. An error leaves the rollback to Tick. */
    method FireTask(name: string, now: int, id: Id) returns (r: Result<(), TickError>)
      requires name in tasks && TaskEnds(tasks[name], now)
      modifies this, db
      ensures match FireOne(old(Snapshot()), name, now, id)
              case Err(error) => r == Err(error)
              case Ok(s) => r == Ok(()) && Snapshot() == s
    {
      hide ScheduleOf, CaughtUp, SearchableSchedule, Recurs;
      var t := tasks[name];
      var expiresAt := if t.expiresS > 0 then Some(Stamp(now + t.expiresS * Calendar.NANOS_PER_SECOND)) else None;
      var enqueued := db.InsertJob(id, t.queue, t.payload, t.priority, Stamp(now), 3, Stamp(now), expiresAt);
      if enqueued.Err? { return Err(EnqueueFailed); }

      // The boundary moves past whatever was missed.
      var parsed := ParseSchedule(t.cronExpr);
      if parsed.Err? { return Err(ParseFailed(parsed.error)); }
      var fireTime := ReadBack(t.nextFireAt, now);
      var newNext := Advance(parsed.value, fireTime, now);
      tasks := tasks[name := tasks[name].(nextFireAt := newNext)];
      return Ok(());
    }

    /** tick, with the row order of its SELECT as a witness. */
    method Tick(now: int, ids: map<string, Id>) returns (r: Result<(), TickError>, ghost order: seq<string>)
      requires Due(tasks, now) <= ids.Keys
      requires forall name :: name in Due(tasks, now) ==> TaskEnds(tasks[name], now)
      modifies this, db
      ensures IsOrderOf(order, Due(old(tasks), now)) && Listed(order, old(tasks), ids, now)
      ensures (Snapshot(), r) == TickOf(old(Snapshot()), order, now, ids)
    {
      var beginTasks, beginLive, beginDead, beginNotices := tasks, db.live, db.dead, db.notices;
      var rows := SelectDue(now);
      order := rows;
      DueAreListed(rows, tasks, now, ids);
      assert rows[0..] == rows;
      hide IsDue, Due, TaskEnds, FireOne, FireAll, IsOrderOf, Listed;
      for i := 0 to |rows|
        invariant Listed(rows[i..], tasks, ids, now)
        invariant FireAll(old(Snapshot()), order, now, ids) == FireAll(Snapshot(), rows[i..], now, ids)
      {
        FireStep(Snapshot(), rows[i..], now, ids);
        assert rows[i..][0] == rows[i] && rows[i..][1..] == rows[i + 1..];
        var fired := FireTask(rows[i], now, ids[rows[i]]);
        if fired.Err? {
          tasks, db.live, db.dead, db.notices := beginTasks, beginLive, beginDead, beginNotices;
          return Err(fired.error), order;
        }
      }
      FireNone(Snapshot(), now, ids);
      assert rows[|rows|..] == [];
      return Ok(()), order;
    }

    /** soonest: SELECT MIN over the text of the enabled boundaries. */
    method Soonest() returns (soonest: int)
      ensures IsSoonest(tasks, soonest)
    {
      hide DueByText, ReadBack;
      var least: Option<int> := None;
      var rest := tasks.Keys;
      while rest != {}
        invariant rest <= tasks.Keys
        invariant var seen := map name | name in tasks && name !in rest :: tasks[name];
                  if least.None? then !SomeEnabled(seen) else IsLeastBoundary(seen, least.value)
        decreases rest
      {
        ghost var before := map name | name in tasks && name !in rest :: tasks[name];
        var name := Choose(rest);
        rest := rest - {name};
        if tasks[name].enabled {
          SeeBoundary(before, least, name, tasks[name]);
          if least.None? || TextOrder.Less(FormatTime(tasks[name].nextFireAt), FormatTime(least.value)) {
            least := Some(tasks[name].nextFireAt);
          }
        }
        assert before[name := tasks[name]] == map name | name in tasks && name !in rest :: tasks[name];
      }
      assert tasks == map name | name in tasks && name !in rest :: tasks[name];
      soonest := if least.None? then 0 else ReadBack(least.value, 0);
    }
  }

  lemma SeeBoundary(seen: map<string, Task>, least: Option<int>, name: string, task: Task)
    requires name !in seen && task.enabled
    requires if least.None? then !SomeEnabled(seen) else IsLeastBoundary(seen, least.value)
    ensures var next := if least.None? || TextOrder.Less(FormatTime(task.nextFireAt), FormatTime(least.value)) then task.nextFireAt else least.value;
            IsLeastBoundary(seen[name := task], next)
  {
    hide FormatTime, TextOrder.Less;
    var t := task.nextFireAt;
    TextOrder.LessTrichotomy(FormatTime(t), FormatTime(t));
    assert seen[name := task][name] == task;
    if least.Some? {
      var kept := least.value;
      TextOrder.LessTrichotomy(FormatTime(t), FormatTime(kept));
      var holder :| holder in seen && seen[holder].enabled && seen[holder].nextFireAt == kept;
      assert seen[name := task][holder].nextFireAt == kept;
      if TextOrder.Less(FormatTime(t), FormatTime(kept)) {
        forall n | n in seen && seen[n].enabled ensures DueByText(t, seen[n].nextFireAt) {
          TextOrder.AtMostTransitive(FormatTime(t), FormatTime(kept), FormatTime(seen[n].nextFireAt));
        }
      }
    }
  }

  /** With years of four digits, soonest returns the zero time for no enabled task (or a task at the
      zero time) only, and otherwise a boundary in the same second as the earliest one. */
  lemma SoonestNamesTheSecond(tasks: map<string, Task>, soonest: int)
    requires AllPrintable(tasks) && IsSoonest(tasks, soonest)
    ensures if !SomeEnabled(tasks) then soonest == 0
            else
              && (exists name :: name in tasks && tasks[name].enabled && tasks[name].nextFireAt == soonest)
              && forall name :: name in tasks && tasks[name].enabled ==>
                   soonest / Calendar.NANOS_PER_SECOND <= tasks[name].nextFireAt / Calendar.NANOS_PER_SECOND
  {
    if SomeEnabled(tasks) {
      hide FormatTime, FormatNano, Printable, TextOrder.Less;
      forall name | name in tasks && tasks[name].enabled
        ensures soonest / Calendar.NANOS_PER_SECOND <= tasks[name].nextFireAt / Calendar.NANOS_PER_SECOND
      {
        DueExactlyWhen(soonest, tasks[name].nextFireAt);
      }
    }
  }

  /** What a task for 30 February does, whenever it is added: its boundary is the zero time, the next
      tick finds it due, and no number of steps of the loop reaches now. */
  lemma February30HoldsTheScheduler(added: int, now: int)
    requires Printable(now) && now >= Calendar.NANOS_PER_SECOND
    ensures var r := ScheduleOf(FEBRUARY_30);
            && r.Ok? && SearchableSchedule(r.value)
            && NextFire(r.value, added) == 0 && ReadBack(0, now) == 0 && DueByText(0, now)
            && forall k: nat :: k >= 1 ==> Iterate(r.value, 0, k) < now
  {
    February30NeverFires();
    DueWithinASecond(0, now);
    var s := ScheduleOf(FEBRUARY_30).value;
    assert SearchableSchedule(s) && !Recurs(s) && !LoopEnds(s, 0, now);
    hide ScheduleOf, DueByText, CronNext.Searchable, CronNext.Satisfiable;
    LoopEndsExactlyWhen(s, 0, now);
  }

  /** The first instant of the year 10000. */
  const YEAR_10000 := 3652059 * Calendar.SECONDS_PER_DAY * Calendar.NANOS_PER_SECOND

  /** The witness for years of more than four digits: the text of the year 10000 sorts before that of
      the year 2000 and does not parse, so the task is due thousands of years early, and firing it
      moves its boundary back. */
  lemma YearTenThousandFiresEarly(now: int, s: Schedule)
    requires Printable(now) && Calendar.Year(now / Calendar.NANOS_PER_SECOND) >= 2000
    requires s.Interval? && 0 < s.interval < YEAR_10000 - now
    ensures DueByText(YEAR_10000, now)
    ensures CaughtUp(s, ReadBack(YEAR_10000, now), now) == now + s.interval < YEAR_10000
  {
    hide FormatTime, Calendar.Year, YearText, YEAR_10000;
    var early, late := FormatTime(YEAR_10000), FormatTime(now);
    InYear10000();
    LeadingDigitOf10000();
    YearComesFirst(YEAR_10000);
    YearComesFirst(now);
    FourDigits(now / Calendar.NANOS_PER_SECOND);
    LeadingDigit(Calendar.Year(now / Calendar.NANOS_PER_SECOND));
    hide Printable, TextOrder.Less;
    assert early[0] < late[0];
    TextOrder.IndexMakesLess(early, late, 0);
    TextOrder.LessTrichotomy(early, late);
  }

  lemma InYear10000()
    ensures Calendar.Year(YEAR_10000 / Calendar.NANOS_PER_SECOND) == 10000
    ensures !Printable(YEAR_10000)
  {
    FourDigitBounds();
    assert Calendar.MonthStart(120001) == 3652090;
    Calendar.MonthIndexUnique(3652059, 120000);
    hide Calendar.MonthStart, Calendar.MonthIndex;
    assert Calendar.DayOf(YEAR_10000 / Calendar.NANOS_PER_SECOND) == 3652059;
  }

  lemma FireNone(s: Store, now: int, ids: map<string, Id>)
    ensures Listed([], s.tasks, ids, now) && FireAll(s, [], now, ids) == Ok(s)
  {}

  lemma FireStep(s: Store, order: seq<string>, now: int, ids: map<string, Id>)
    requires order != [] && Listed(order, s.tasks, ids, now)
    ensures order[0] in s.tasks && order[0] in ids && TaskEnds(s.tasks[order[0]], now)
    ensures var fired := FireOne(s, order[0], now, ids[order[0]]);
            if fired.Err? then FireAll(s, order, now, ids) == Err(fired.error)
            else
              && Listed(order[1..], fired.value.tasks, ids, now)
              && FireAll(s, order, now, ids) == FireAll(fired.value, order[1..], now, ids)
  {
    hide TaskEnds, CaughtUp, JobFor;
  }

  lemma DueAreListed(order: seq<string>, tasks: map<string, Task>, now: int, ids: map<string, Id>)
    requires IsOrderOf(order, Due(tasks, now)) && Due(tasks, now) <= ids.Keys
    requires forall name :: name in Due(tasks, now) ==> TaskEnds(tasks[name], now)
    ensures Listed(order, tasks, ids, now)
  {
    forall i | 0 <= i < |order| ensures order[i] in tasks && order[i] in ids && TaskEnds(tasks[order[i]], now) {
      assert order[i] in Due(tasks, now);
    }
  }
}
