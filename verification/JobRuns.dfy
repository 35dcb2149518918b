/** Runs of the job queue: any sequence of operations by any workers, with what they did kept on
    a ledger beside the tables. Ids are fresh, as UUIDs are. */
module JobRuns {
  import opened Base
  import opened Jobs

  datatype Op =
    | EnqueueOp(id: Id, job: Job)
    | ClaimOp(queue: string, worker: string, n: int, now: int, expires: int)
    | AckOp(id: Id, worker: string)
    | AckBatchOp(ids: seq<Id>, worker: string)
    | RetryOp(queue: string, id: Id, worker: string, runAt: int, error: string)
    | FailOp(id: Id, worker: string, error: string)
    | HeartbeatOp(id: Id, worker: string, newExpiry: int)
    | CancelOp(id: Id)
    | SweepOp(queue: string)

  /** An operation and the clock inside its critical section. ClaimBatch alone reads the clock
      before that, so its own reading may be older. */
  datatype Event = Event(clock: int, op: Op)

  ghost function Step(t: Tables, e: Event): Tables {
    match e.op
    case EnqueueOp(id, job) => Enqueue(t, id, job).0
    case ClaimOp(queue, worker, n, now, expires) => ClaimBatch(t, queue, worker, n, now, expires).0
    case AckOp(id, worker) => Ack(t, id, worker, e.clock).0
    case AckBatchOp(ids, worker) => AckBatch(t, ids, worker, e.clock).0
    case RetryOp(queue, id, worker, runAt, error) => Retry(t, queue, id, worker, e.clock, runAt, error).0
    case FailOp(id, worker, error) => Fail(t, id, worker, e.clock, error).0
    case HeartbeatOp(id, worker, newExpiry) => Heartbeat(t, id, worker, e.clock, newExpiry).0
    case CancelOp(id) => Cancel(t, id).0
    case SweepOp(queue) => SweepExpired(t, queue, e.clock).0
  }

  /** What the caller is told: whether the operation did something, or that it failed. */
  ghost function ReplyTo(t: Tables, e: Event): Reply {
    match e.op
    case EnqueueOp(id, job) => Enqueue(t, id, job).1
    case ClaimOp(queue, worker, n, now, expires) => Ok(ClaimBatch(t, queue, worker, n, now, expires).1 != [])
    case AckOp(id, worker) => Ack(t, id, worker, e.clock).1
    case AckBatchOp(ids, worker) => Ok(AckBatch(t, ids, worker, e.clock).1 > 0)
    case RetryOp(queue, id, worker, runAt, error) => Retry(t, queue, id, worker, e.clock, runAt, error).1
    case FailOp(id, worker, error) => Fail(t, id, worker, e.clock, error).1
    case HeartbeatOp(id, worker, newExpiry) => Heartbeat(t, id, worker, e.clock, newExpiry).1
    case CancelOp(id) => Cancel(t, id).1
    case SweepOp(queue) =>
      var r := SweepExpired(t, queue, e.clock).1;
      if r.Ok? then Ok(r.value > 0) else Err(r.error)
  }

  /** The ids that a claim grants. */
  ghost function Granted(t: Tables, op: Op): set<Id>
    requires op.ClaimOp?
  {
    Elements(Selected(t, op.queue, op.n, op.now))
  }

  // The ledger.

  /** Claims of a job from pending, re-claims of lapsed claims, and successful retries. */
  datatype Tally = Tally(fromPending: nat, fromLapsed: nat, retries: nat)

  datatype World = World(
    tables: Tables,
    enqueued: map<Id, Job>,
    acked: set<Id>,
    cancelled: set<Id>,
    tallies: map<Id, Tally>)

  function Removed(before: Tables, after: Tables): set<Id> {
    before.live.Keys - after.live.Keys
  }

  function TallyClaims(w: World, granted: set<Id>): map<Id, Tally> {
    map id | id in w.tallies ::
      var tally := w.tallies[id];
      if id !in granted || id !in w.tables.live then tally
      else if w.tables.live[id].state.Pending? then tally.(fromPending := tally.fromPending + 1)
      else tally.(fromLapsed := tally.fromLapsed + 1)
  }

  function TallyRetry(tallies: map<Id, Tally>, id: Id): map<Id, Tally> {
    if id in tallies then tallies[id := tallies[id].(retries := tallies[id].retries + 1)] else tallies
  }

  ghost function Next(w: World, e: Event): World {
    var t := w.tables;
    var t' := Step(t, e);
    var reply := ReplyTo(t, e);
    match e.op
    case EnqueueOp(id, job) =>
      if reply.Err? then w.(tables := t')
      else w.(tables := t', enqueued := w.enqueued[id := job], tallies := w.tallies[id := Tally(0, 0, 0)])
    case ClaimOp(_, _, _, _, _) => w.(tables := t', tallies := TallyClaims(w, Granted(t, e.op)))
    case AckOp(_, _) => w.(tables := t', acked := w.acked + Removed(t, t'))
    case AckBatchOp(_, _) => w.(tables := t', acked := w.acked + Removed(t, t'))
    case RetryOp(_, id, _, _, _) => w.(tables := t', tallies := if reply == Ok(true) then TallyRetry(w.tallies, id) else w.tallies)
    case CancelOp(_) => w.(tables := t', cancelled := w.cancelled + Removed(t, t'))
    case _ => w.(tables := t')
  }

  const START := World(Tables(map[], map[], []), map[], {}, {}, map[])

  /** What the operations may assume of each other: ids are fresh and a claim's clock is no later
      than the step. */
  predicate Admissible(w: World, e: Event) {
    match e.op
    case EnqueueOp(id, job) => id !in w.enqueued && job.state.Pending? && job.worker.None? && job.claimExpires.None? && job.attempts == 0
    case ClaimOp(_, _, _, now, _) => now <= e.clock
    case _ => true
  }

  ghost function Run(w: World, es: seq<Event>): World {
    if es == [] then w else Next(Run(w, es[..|es| - 1]), es[|es| - 1])
  }

  ghost predicate ValidRun(w: World, es: seq<Event>) {
    es != [] ==>
      && ValidRun(w, es[..|es| - 1])
      && Admissible(Run(w, es[..|es| - 1]), es[|es| - 1])
      && (|es| > 1 ==> es[|es| - 2].clock <= es[|es| - 1].clock)
  }

  // The invariant.

  /** Every id is in exactly one of live, dead, acked and cancelled. */
  ghost predicate Conserved(w: World) {
    var live, dead := w.tables.live.Keys, w.tables.dead.Keys;
    && w.enqueued.Keys == w.tallies.Keys == live + dead + w.acked + w.cancelled
    && live !! dead !! w.acked !! w.cancelled
  }

  /** What no operation changes about a job. */
  predicate SameJob(job: Job, original: Job) {
    && job.queue == original.queue && job.payload == original.payload && job.priority == original.priority
    && job.maxAttempts == original.maxAttempts && job.createdAt == original.createdAt
    && job.expiresAt == original.expiresAt
  }

  predicate SameDead(dead: DeadJob, original: Job) {
    && dead.queue == original.queue && dead.payload == original.payload && dead.priority == original.priority
    && dead.maxAttempts == original.maxAttempts && dead.createdAt == original.createdAt
  }

  predicate GoodRow(job: Job, original: Job, tally: Tally) {
    && SameJob(job, original)
    && job.attempts == tally.fromPending + tally.fromLapsed
    && (job.state.Pending? ==> job.worker.None? && job.claimExpires.None? && tally.fromPending == tally.retries)
    && (job.state.Processing? ==> job.worker.Some? && job.claimExpires.Some? && tally.fromPending == tally.retries + 1)
    && (job.state.Pending? && job.maxAttempts >= 1 ==> job.attempts < job.maxAttempts)
  }

  predicate GoodDead(dead: DeadJob, original: Job, tally: Tally) {
    SameDead(dead, original) && dead.attempts == tally.fromPending + tally.fromLapsed
  }

  predicate Bounded(original: Job, tally: Tally) {
    original.maxAttempts >= 1 ==> tally.fromPending <= original.maxAttempts && tally.retries <= original.maxAttempts
  }

  ghost predicate Inv(w: World) {
    && Conserved(w)
    && (forall id :: id in w.tables.live ==> GoodRow(w.tables.live[id], w.enqueued[id], w.tallies[id]))
    && (forall id :: id in w.tables.dead ==> GoodDead(w.tables.dead[id], w.enqueued[id], w.tallies[id]))
    && (forall id :: id in w.enqueued ==> Bounded(w.enqueued[id], w.tallies[id]))
  }

  /** A fresh row keeps the invariant. */
  lemma InsertKeepsInv(w: World, w': World, id: Id, job: Job)
    requires Inv(w) && id !in w.enqueued && GoodRow(job, job, Tally(0, 0, 0))
    requires w'.tables.live == w.tables.live[id := job] && w'.tables.dead == w.tables.dead
    requires w'.enqueued == w.enqueued[id := job] && w'.tallies == w.tallies[id := Tally(0, 0, 0)]
    requires w'.acked == w.acked && w'.cancelled == w.cancelled
    ensures Inv(w')
  {
    assert Bounded(job, Tally(0, 0, 0));
    hide GoodRow, GoodDead, Bounded, SameJob, SameDead;
    assert Conserved(w') by {
      assert w'.tables.live.Keys == w.tables.live.Keys + {id};
      assert w'.enqueued.Keys == w.enqueued.Keys + {id} && w'.tallies.Keys == w.tallies.Keys + {id};
    }
    assert forall i :: i in w.tables.dead ==> i in w.enqueued && i != id;
    hide Conserved;
  }

  lemma EnqueueKeepsInv(w: World, e: Event)
    requires e.op.EnqueueOp? && Inv(w) && Admissible(w, e)
    ensures Inv(Next(w, e)) && ReplyTo(w.tables, e).Ok?
  {
    assert e.op.id !in w.tables.live;
    assert GoodRow(e.op.job, e.op.job, Tally(0, 0, 0));
    hide Inv, GoodRow;
    InsertKeepsInv(w, Next(w, e), e.op.id, e.op.job);
  }

  lemma ClaimKeepsRow(job: Job, original: Job, tally: Tally, worker: string, expires: int)
    requires GoodRow(job, original, tally) && Bounded(original, tally)
    ensures var tally' := if job.state.Pending? then tally.(fromPending := tally.fromPending + 1)
                          else tally.(fromLapsed := tally.fromLapsed + 1);
            GoodRow(Claimed(job, worker, expires), original, tally') && Bounded(original, tally')
  {}

  /** Updating rows and tallies of live jobs in place keeps the invariant if every row stays good. */
  lemma UpdateKeepsInv(w: World, w': World)
    requires Inv(w)
    requires w'.tables.live.Keys == w.tables.live.Keys && w'.tables.dead == w.tables.dead
    requires w'.enqueued == w.enqueued && w'.acked == w.acked && w'.cancelled == w.cancelled
    requires w'.tallies.Keys == w.tallies.Keys
    requires forall id :: id in w.tables.live ==>
               GoodRow(w'.tables.live[id], w.enqueued[id], w'.tallies[id]) && Bounded(w.enqueued[id], w'.tallies[id])
    requires forall id :: id in w.tallies && id !in w.tables.live ==> w'.tallies[id] == w.tallies[id]
    ensures Inv(w')
  {
    hide GoodRow, GoodDead, Bounded;
  }

  lemma InvAt(w: World, id: Id)
    requires Inv(w) && id in w.tables.live
    ensures id in w.enqueued && id in w.tallies && id !in w.tables.dead
    ensures GoodRow(w.tables.live[id], w.enqueued[id], w.tallies[id]) && Bounded(w.enqueued[id], w.tallies[id])
  {
    hide GoodRow, GoodDead, Bounded;
  }

  lemma ClaimKeepsInv(w: World, e: Event)
    requires e.op.ClaimOp? && Inv(w)
    ensures Inv(Next(w, e)) && ReplyTo(w.tables, e).Ok?
  {
    var granted := Granted(w.tables, e.op);
    var w' := Next(w, e);
    assert w'.tables.live == ClaimAll(w.tables.live, granted, e.op.worker, e.op.expires) && w'.tables.dead == w.tables.dead;
    assert w' == w.(tables := w'.tables, tallies := TallyClaims(w, granted));
    hide Step, Next, ClaimBatch, Granted, Selected, Inv, GoodRow, Bounded, Claimed;
    forall id | id in w.tables.live
      ensures GoodRow(w'.tables.live[id], w.enqueued[id], w'.tallies[id]) && Bounded(w.enqueued[id], w'.tallies[id])
    {
      InvAt(w, id);
      ClaimKeepsRow(w.tables.live[id], w.enqueued[id], w.tallies[id], e.op.worker, e.op.expires);
    }
    UpdateKeepsInv(w, w');
  }

  /** Taking rows out of live into one of the final sets keeps the invariant. */
  lemma RemovalKeepsInv(w: World, w': World, gone: set<Id>)
    requires Inv(w) && gone <= w.tables.live.Keys
    requires w'.tables.live == w.tables.live - gone && w'.tables.dead == w.tables.dead
    requires w'.enqueued == w.enqueued && w'.tallies == w.tallies
    requires (w'.acked == w.acked + gone && w'.cancelled == w.cancelled) || (w'.acked == w.acked && w'.cancelled == w.cancelled + gone)
    ensures Inv(w')
  {
    hide GoodRow, GoodDead, Bounded;
  }

  /** What an Ack, an AckBatch or a Cancel takes out of live. */
  function TakenOut(t: Tables, e: Event): set<Id> {
    match e.op
    case AckOp(id, worker) => if Held(t, id, worker, e.clock) then {id} else {}
    case AckBatchOp(ids, worker) => Acked(t, ids, worker, e.clock)
    case CancelOp(id) => if id in t.live then {id} else {}
    case _ => {}
  }

  lemma StepTakesOut(t: Tables, e: Event)
    requires e.op.AckOp? || e.op.AckBatchOp? || e.op.CancelOp?
    ensures TakenOut(t, e) <= t.live.Keys && ReplyTo(t, e).Ok?
    ensures Step(t, e).live == t.live - TakenOut(t, e) && Step(t, e).dead == t.dead
  {
    assert t.live - {} == t.live;
  }

  lemma AckKeepsInv(w: World, e: Event)
    requires (e.op.AckOp? || e.op.AckBatchOp? || e.op.CancelOp?) && Inv(w)
    ensures Inv(Next(w, e)) && ReplyTo(w.tables, e).Ok?
  {
    hide Inv, Step, ReplyTo, TakenOut;
    var gone := TakenOut(w.tables, e);
    StepTakesOut(w.tables, e);
    assert Removed(w.tables, Step(w.tables, e)) == gone;
    RemovalKeepsInv(w, Next(w, e), gone);
  }

  lemma BuryKeepsRow(job: Job, original: Job, tally: Tally, error: string)
    requires GoodRow(job, original, tally)
    ensures GoodDead(Bury(job, error), original, tally)
  {}

  /** Moving rows from live to dead keeps the invariant. */
  lemma BurialKeepsInv(w: World, w': World, gone: set<Id>, error: string)
    requires Inv(w) && gone <= w.tables.live.Keys
    requires w'.tables.live == w.tables.live - gone
    requires w'.tables.dead == w.tables.dead + map id | id in gone :: Bury(w.tables.live[id], error)
    requires w' == w.(tables := w'.tables)
    ensures Inv(w')
  {
    forall id | id in gone ensures GoodDead(Bury(w.tables.live[id], error), w.enqueued[id], w.tallies[id]) {
      BuryKeepsRow(w.tables.live[id], w.enqueued[id], w.tallies[id], error);
    }
    hide GoodRow, GoodDead, Bounded, Bury;
  }

  lemma OneBurial(t: Tables, id: Id, error: string)
    requires id in t.live && id !in t.dead
    ensures MoveToDead(t, id, error).1 == Ok(true)
    ensures MoveToDead(t, id, error).0.live == t.live - {id}
    ensures MoveToDead(t, id, error).0.dead == t.dead + map i | i in {id} :: Bury(t.live[i], error)
  {
    hide Bury;
  }

  lemma FailKeepsInv(w: World, e: Event)
    requires e.op.FailOp? && Inv(w)
    ensures Inv(Next(w, e)) && ReplyTo(w.tables, e).Ok?
  {
    var id := e.op.id;
    if Held(w.tables, id, e.op.worker, e.clock) {
      assert id !in w.tables.dead;
      hide Inv;
      OneBurial(w.tables, id, e.op.error);
      BurialKeepsInv(w, Next(w, e), {id}, e.op.error);
    }
  }

  lemma SweepKeepsInv(w: World, e: Event)
    requires e.op.SweepOp? && Inv(w)
    ensures Inv(Next(w, e)) && ReplyTo(w.tables, e).Ok?
  {
    var expired := Expired(w.tables, e.op.queue, e.clock);
    assert expired <= w.tables.live.Keys;
    assert expired * w.tables.dead.Keys == {};
    hide Inv, Bury;
    BurialKeepsInv(w, Next(w, e), expired, "expired");
  }

  lemma RetryKeepsRow(job: Job, original: Job, tally: Tally, runAt: int)
    requires GoodRow(job, original, tally) && Bounded(original, tally)
    requires job.state.Processing? && job.attempts < job.maxAttempts
    ensures var job' := job.(state := Pending, runAt := runAt, worker := None, claimExpires := None);
            var tally' := tally.(retries := tally.retries + 1);
            GoodRow(job', original, tally') && Bounded(original, tally')
  {}

  /** The last retry of a job, the one that buries it, stays within the bound. */
  lemma LastRetryIsBounded(job: Job, original: Job, tally: Tally)
    requires GoodRow(job, original, tally) && Bounded(original, tally) && job.state.Processing?
    ensures Bounded(original, tally.(retries := tally.retries + 1))
  {}

  /** Counting a retry of a job that is dead keeps the invariant. */
  lemma DeadRetryKeepsInv(w: World, id: Id)
    requires Inv(w) && id in w.tables.dead && id in w.tallies && id in w.enqueued
    requires Bounded(w.enqueued[id], w.tallies[id].(retries := w.tallies[id].retries + 1))
    ensures Inv(w.(tallies := TallyRetry(w.tallies, id)))
  {
    hide GoodRow, Bounded;
  }

  lemma NextOfBuryingRetry(w: World, e: Event)
    requires e.op.RetryOp? && Held(w.tables, e.op.id, e.op.worker, e.clock) && e.op.id !in w.tables.dead
    requires w.tables.live[e.op.id].state.Processing? && w.tables.live[e.op.id].attempts >= w.tables.live[e.op.id].maxAttempts
    ensures Next(w, e) == w.(tables := MoveToDead(w.tables, e.op.id, e.op.error).0, tallies := TallyRetry(w.tallies, e.op.id))
    ensures ReplyTo(w.tables, e) == Ok(true)
  {}

  lemma BuryingRetryKeepsInv(w: World, e: Event)
    requires e.op.RetryOp? && Inv(w) && Held(w.tables, e.op.id, e.op.worker, e.clock)
    requires w.tables.live[e.op.id].state.Processing? && w.tables.live[e.op.id].attempts >= w.tables.live[e.op.id].maxAttempts
    ensures Inv(Next(w, e)) && ReplyTo(w.tables, e).Ok?
  {
    var t, id := w.tables, e.op.id;
    assert id in t.live;
    hide *;
    InvAt(w, id);
    NextOfBuryingRetry(w, e);
    OneBurial(t, id, e.op.error);
    LastRetryIsBounded(t.live[id], w.enqueued[id], w.tallies[id]);
    var buried := w.(tables := MoveToDead(t, id, e.op.error).0);
    BurialKeepsInv(w, buried, {id}, e.op.error);
    DeadRetryKeepsInv(buried, id);
  }

  lemma PendingRetryKeepsInv(w: World, e: Event)
    requires e.op.RetryOp? && Inv(w) && Held(w.tables, e.op.id, e.op.worker, e.clock)
    requires w.tables.live[e.op.id].state.Processing? && w.tables.live[e.op.id].attempts < w.tables.live[e.op.id].maxAttempts
    ensures Inv(Next(w, e)) && ReplyTo(w.tables, e).Ok?
  {
    var t, id := w.tables, e.op.id;
    InvAt(w, id);
    RetryKeepsRow(t.live[id], w.enqueued[id], w.tallies[id], e.op.runAt);
    var w' := Next(w, e);
    assert w'.tables.live.Keys == t.live.Keys;
    hide Inv, GoodRow, Bounded;
    forall i | i in t.live
      ensures GoodRow(w'.tables.live[i], w.enqueued[i], w'.tallies[i]) && Bounded(w.enqueued[i], w'.tallies[i])
    {
      InvAt(w, i);
    }
    UpdateKeepsInv(w, w');
  }

  lemma RetryKeepsInv(w: World, e: Event)
    requires e.op.RetryOp? && Inv(w)
    ensures Inv(Next(w, e)) && ReplyTo(w.tables, e).Ok?
  {
    hide Inv;
    var t, id := w.tables, e.op.id;
    if Held(t, id, e.op.worker, e.clock) && t.live[id].state.Processing? {
      hide Next, ReplyTo, Held;
      if t.live[id].attempts >= t.live[id].maxAttempts {
        BuryingRetryKeepsInv(w, e);
      } else {
        PendingRetryKeepsInv(w, e);
      }
    }
  }

  lemma HeartbeatKeepsInv(w: World, e: Event)
    requires e.op.HeartbeatOp? && Inv(w)
    ensures Inv(Next(w, e)) && ReplyTo(w.tables, e).Ok?
  {
    var t, id := w.tables, e.op.id;
    var w' := Next(w, e);
    if Held(t, id, e.op.worker, e.clock) {
      assert w'.tables.live.Keys == t.live.Keys;
      InvAt(w, id);
      assert GoodRow(w'.tables.live[id], w.enqueued[id], w'.tallies[id]);
      hide Inv, GoodRow, Bounded;
      forall i | i in t.live
        ensures GoodRow(w'.tables.live[i], w.enqueued[i], w'.tallies[i]) && Bounded(w.enqueued[i], w'.tallies[i])
      {
        InvAt(w, i);
      }
      UpdateKeepsInv(w, w');
    }
  }

  /** Every operation keeps the invariant and none fails on a primary key. */
  lemma StepKeepsInv(w: World, e: Event)
    requires Inv(w) && Admissible(w, e)
    ensures Inv(Next(w, e)) && ReplyTo(w.tables, e).Ok?
  {
    hide Inv, Next, ReplyTo, Admissible;
    match e.op
    case EnqueueOp(_, _) => EnqueueKeepsInv(w, e);
    case ClaimOp(_, _, _, _, _) => ClaimKeepsInv(w, e);
    case AckOp(_, _) => AckKeepsInv(w, e);
    case AckBatchOp(_, _) => AckKeepsInv(w, e);
    case RetryOp(_, _, _, _, _) => RetryKeepsInv(w, e);
    case FailOp(_, _, _) => FailKeepsInv(w, e);
    case HeartbeatOp(_, _, _) => HeartbeatKeepsInv(w, e);
    case CancelOp(_) => AckKeepsInv(w, e);
    case SweepOp(_) => SweepKeepsInv(w, e);
  }
}
