/** Runs of the whole system: queue operations by any workers, ticks by any schedulers and changes
    of the task table, in any order. To the job tables each is a run of the queue. */
module MixedRuns {
  import opened Base
  import opened Jobs
  import opened JobRuns
  import JobTheorems
  import CatchUp
  import Schedules
  import opened Scheduler
  import SchedulerRuns
  import Timestamps

  // A tick as queue operations.

  ghost function TickEvents(tasks: map<string, Task>, order: seq<string>, now: int, ids: map<string, Id>, clock: int): (es: seq<Event>)
    requires Listed(order, tasks, ids, now)
    ensures |es| == |order|
    ensures forall i :: 0 <= i < |es| ==> es[i].clock == clock
  {
    if order == [] then []
    else
      [Event(clock, EnqueueOp(ids[order[0]], JobFor(tasks[order[0]], now)))]
      + TickEvents(tasks, order[1..], now, ids, clock)
  }

  predicate FreshIds(w: World, order: seq<string>, ids: map<string, Id>) {
    && (forall i :: 0 <= i < |order| ==> order[i] in ids && ids[order[i]] !in w.enqueued)
    && (forall i, j :: 0 <= i < j < |order| ==> ids[order[i]] != ids[order[j]])
  }

  lemma {:induction false} SameTasksSameEvents(tasks: map<string, Task>, tasks': map<string, Task>, order: seq<string>, now: int, ids: map<string, Id>, clock: int)
    requires Listed(order, tasks, ids, now) && Listed(order, tasks', ids, now)
    requires forall i :: 0 <= i < |order| ==> tasks'[order[i]] == tasks[order[i]]
    ensures TickEvents(tasks', order, now, ids, clock) == TickEvents(tasks, order, now, ids, clock)
  {
    hide JobFor;
    if order == [] {
    } else {
      SameTasksSameEvents(tasks, tasks', order[1..], now, ids, clock);
    }
  }

  /** To the job tables a successful tick is a run of the queue, one Enqueue with a fresh id for
      each task it fires. The clock is that of the transaction, at or after the tick's reading. */
  lemma {:induction false} TickIsEnqueues(w: World, s: Store, order: seq<string>, now: int, ids: map<string, Id>, clock: int)
    requires Listed(order, s.tasks, ids, now) && FreshIds(w, order, ids)
    requires w.tables == s.jobs && FireAll(s, order, now, ids).Ok?
    ensures ValidRun(w, TickEvents(s.tasks, order, now, ids, clock))
    ensures Run(w, TickEvents(s.tasks, order, now, ids, clock)).tables == FireAll(s, order, now, ids).value.jobs
    decreases |order|
  {
    if order == [] {
    } else {
      var name, rest := order[0], order[1..];
      var e := Event(clock, EnqueueOp(ids[name], JobFor(s.tasks[name], now)));
      FireStep(s, order, now, ids);
      EnqueueEvent(w, s, name, now, ids[name], clock);
      var s1 := FireOne(s, name, now, ids[name]).value;
      OtherTasksStay(s, order, now, ids, clock);
      FreshTail(w, Next(w, e), order, ids);
      hide FireOne, FireAll, JobFor, Listed, Distinct, FreshIds, Run, ValidRun, Next;
      TickIsEnqueues(Next(w, e), s1, rest, now, ids, clock);
      JobTheorems.RunFrom(w, e, TickEvents(s.tasks, rest, now, ids, clock));
    }
  }

  lemma OtherTasksStay(s: Store, order: seq<string>, now: int, ids: map<string, Id>, clock: int)
    requires order != [] && Listed(order, s.tasks, ids, now)
    requires FireOne(s, order[0], now, ids[order[0]]).Ok?
    ensures var s1 := FireOne(s, order[0], now, ids[order[0]]).value;
            && Listed(order[1..], s.tasks, ids, now) && Listed(order[1..], s1.tasks, ids, now)
            && TickEvents(s1.tasks, order[1..], now, ids, clock) == TickEvents(s.tasks, order[1..], now, ids, clock)
  {
    var name, rest := order[0], order[1..];
    var s1 := FireOne(s, name, now, ids[name]).value;
    FireStep(s, order, now, ids);
    SchedulerRuns.FireOneEffect(s, name, now, ids[name]);
    hide FireOne, FireAll, JobFor, SchedulerRuns.Fired, TickEvents;
    forall i | 0 <= i < |rest| ensures s1.tasks[rest[i]] == s.tasks[rest[i]] {
      assert rest[i] == order[i + 1] && order[i + 1] != name;
    }
    SameTasksSameEvents(s.tasks, s1.tasks, rest, now, ids, clock);
  }

  lemma FreshTail(w: World, w1: World, order: seq<string>, ids: map<string, Id>)
    requires order != [] && FreshIds(w, order, ids) && w1.enqueued.Keys == w.enqueued.Keys + {ids[order[0]]}
    ensures FreshIds(w1, order[1..], ids)
  {}

  lemma EnqueueEvent(w: World, s: Store, name: string, now: int, id: Id, clock: int)
    requires name in s.tasks && TaskEnds(s.tasks[name], now) && FireOne(s, name, now, id).Ok?
    requires w.tables == s.jobs && id !in w.enqueued
    ensures var e := Event(clock, EnqueueOp(id, JobFor(s.tasks[name], now)));
            && Admissible(w, e)
            && Next(w, e).tables == FireOne(s, name, now, id).value.jobs
            && Next(w, e).enqueued.Keys == w.enqueued.Keys + {id}
  {
    hide CatchUp.CaughtUp, Schedules.ScheduleOf;
  }

  // Mixed runs.

  datatype Act =
    | QueueAct(e: Event)
    | TickAct(clock: int, now: int, order: seq<string>, ids: map<string, Id>)
    | TaskAct(op: SchedulerRuns.Op)

  /** The trace is what the acts have done to the job tables, as operations of the queue. */
  datatype System = System(store: Store, clock: int, trace: seq<Event>)

  ghost function Ledger(sys: System): World {
    Run(START, sys.trace)
  }

  /** The clock is that of the critical sections; readings taken before them, a claim's or a tick's,
      may be older. Ids are fresh. Jobs keep milliseconds and a tick reads nanoseconds. */
  ghost predicate Enabled(sys: System, act: Act) {
    match act
    case QueueAct(e) => sys.clock <= e.clock && Admissible(Ledger(sys), e)
    case TickAct(clock, now, order, ids) =>
      && sys.clock <= clock && Stamp(now) <= clock
      && SchedulerRuns.Legal(sys.store, SchedulerRuns.TickOp(now, order, ids))
      && FreshIds(Ledger(sys), order, ids)
    case TaskAct(op) => !op.TickOp? && !op.JobsOp?
  }

  ghost function After(sys: System, act: Act): System
    requires Enabled(sys, act)
  {
    match act
    case QueueAct(e) => System(sys.store.(jobs := JobRuns.Step(sys.store.jobs, e)), e.clock, sys.trace + [e])
    case TickAct(clock, now, order, ids) =>
      var (store, r) := TickOf(sys.store, order, now, ids);
      System(store, clock, if r.Ok? then sys.trace + TickEvents(sys.store.tasks, order, now, ids, clock) else sys.trace)
    case TaskAct(op) => sys.(store := SchedulerRuns.Step(sys.store, op))
  }

  ghost function RunAll(sys: System, acts: seq<Act>): System
    requires Possible(sys, acts)
    decreases |acts|, 2
  {
    if acts == [] then sys else After(RunAll(sys, acts[..|acts| - 1]), acts[|acts| - 1])
  }

  ghost predicate Possible(sys: System, acts: seq<Act>)
    decreases |acts|, 1
  {
    acts != [] ==>
      && Possible(sys, acts[..|acts| - 1])
      && Enabled(RunAll(sys, acts[..|acts| - 1]), acts[|acts| - 1])
  }

  /** Empty job tables, and any tasks. */
  predicate Fresh(sys: System) {
    sys.trace == [] && sys.store.jobs == START.tables
  }

  ghost predicate Traced(sys: System) {
    && ValidRun(START, sys.trace) && Ledger(sys).tables == sys.store.jobs
    && (sys.trace != [] ==> sys.trace[|sys.trace| - 1].clock <= sys.clock)
  }

  /** Valid runs follow one another. */
  lemma {:induction false} RunThen(w: World, a: seq<Event>, b: seq<Event>)
    requires ValidRun(w, a) && ValidRun(Run(w, a), b)
    requires a != [] && b != [] ==> a[|a| - 1].clock <= b[0].clock
    ensures ValidRun(w, a + b) && Run(w, a + b) == Run(Run(w, a), b)
  {
    hide Admissible, Next;
    if b == [] {
      assert a + b == a;
    } else {
      var init := b[..|b| - 1];
      RunThen(w, a, init);
      assert (a + b)[..|a + b| - 1] == a + init;
      assert |b| > 1 ==> (a + b)[|a + b| - 2] == b[|b| - 2];
      assert |b| == 1 && a != [] ==> (a + b)[|a + b| - 2] == a[|a| - 1];
    }
  }

  lemma RunOne(w: World, e: Event)
    requires Admissible(w, e)
    ensures ValidRun(w, [e]) && Run(w, [e]) == Next(w, e)
  {
    hide Next, Admissible;
    assert [e][..0] == [] && Run(w, []) == w;
  }

  lemma QueueActKeepsTraced(sys: System, act: Act)
    requires Traced(sys) && Enabled(sys, act) && act.QueueAct?
    ensures Traced(After(sys, act))
  {
    var e, w := act.e, Ledger(sys);
    RunOne(w, e);
    JobTheorems.NextTables(w, e);
    hide Run, ValidRun, Admissible, Next, JobRuns.Step;
    RunThen(START, sys.trace, [e]);
  }

  lemma TickActKeepsTraced(sys: System, act: Act)
    requires Traced(sys) && Enabled(sys, act) && act.TickAct?
    ensures Traced(After(sys, act))
  {
    hide Run, ValidRun, FreshIds, FireAll, Listed, TickEvents, IsOrderOf, Due, IsDue, START;
    var events := TickEvents(sys.store.tasks, act.order, act.now, act.ids, act.clock);
    if FireAll(sys.store, act.order, act.now, act.ids).Ok? {
      TickIsEnqueues(Ledger(sys), sys.store, act.order, act.now, act.ids, act.clock);
      RunThen(START, sys.trace, events);
    }
  }

  lemma {:induction false} MixedRunIsTraced(sys: System, acts: seq<Act>)
    requires Fresh(sys) && Possible(sys, acts)
    ensures Traced(RunAll(sys, acts))
  {
    if acts == [] {
      assert Traced(sys);
    } else {
      var last, act := RunAll(sys, acts[..|acts| - 1]), acts[|acts| - 1];
      hide Traced, Enabled, After, RunAll;
      MixedRunIsTraced(sys, acts[..|acts| - 1]);
      match act
      case QueueAct(_) => QueueActKeepsTraced(last, act);
      case TickAct(_, _, _, _) => TickActKeepsTraced(last, act);
      case TaskAct(_) => TaskActKeepsTraced(last, act);
    }
  }

  lemma TaskActKeepsTraced(sys: System, act: Act)
    requires Traced(sys) && Enabled(sys, act) && act.TaskAct?
    ensures Traced(After(sys, act))
  {
    hide Run, ValidRun;
  }

  /** Every run of the system is, to the job tables, a valid run of the queue: what holds over every
      run of the queue holds with ticks in it, whenever their schedulers read the clock. In
      particular every id ever enqueued, by a worker or by a tick, is in exactly one of live, dead,
      acked and cancelled, and no statement ever meets a key that is taken. */
  lemma ConservationWithTicks(sys: System, acts: seq<Act>)
    requires Fresh(sys) && Possible(sys, acts)
    ensures var end := RunAll(sys, acts); var w := Ledger(end);
            && ValidRun(START, end.trace) && w.tables == end.store.jobs
            && w.enqueued.Keys == end.store.jobs.live.Keys + end.store.jobs.dead.Keys + w.acked + w.cancelled
            && end.store.jobs.live.Keys !! end.store.jobs.dead.Keys !! w.acked !! w.cancelled
            && (forall i :: 0 <= i < |end.trace| ==> ReplyTo(JobTheorems.At(START, end.trace, i).tables, end.trace[i]).Ok?)
  {
    MixedRunIsTraced(sys, acts);
    hide Run, ValidRun, RunAll, ReplyTo;
    JobTheorems.Conservation(RunAll(sys, acts).trace);
  }
}
