/** What a single operation does to the job it names, and that it leaves every other job alone. The
    tables are any in which live and dead share no id, as in every run. */
module JobEffects {
  import opened Base
  import opened Jobs
  import TextOrder
  import Timestamps

  /** Stamps are in the order of the text that they stand for. */
  lemma StampsOrderAsText(t: int, u: int)
    requires Timestamps.Printable(t) && Timestamps.Printable(u)
    ensures Stamp(t) < Stamp(u) <==> TextOrder.Less(Timestamps.FormatMillis(t), Timestamps.FormatMillis(u))
    ensures Stamp(t) == Stamp(u) <==> Timestamps.FormatMillis(t) == Timestamps.FormatMillis(u)
  {
    Timestamps.MillisTextOrder(t, u);
    hide Timestamps.FormatMillis, Timestamps.Printable, TextOrder.Less;
  }

  predicate Disjoint(t: Tables) {
    t.live.Keys !! t.dead.Keys
  }

  /** Every other row is as it was. */
  predicate OthersUntouched(t: Tables, t': Tables, id: Id) {
    && t.live.Keys - {id} == t'.live.Keys - {id} && t.dead.Keys - {id} == t'.dead.Keys - {id}
    && (forall i :: i in t.live && i != id ==> i in t'.live && t'.live[i] == t.live[i])
    && (forall i :: i in t.dead && i != id ==> i in t'.dead && t'.dead[i] == t.dead[i])
  }

  /** The job has gone from live to dead, for this reason and with everything that a dead job keeps. */
  predicate Dies(t: Tables, t': Tables, id: Id, error: string)
    requires id in t.live
  {
    && id !in t'.live && id in t'.dead
    && var job, dead := t.live[id], t'.dead[id];
       && dead.lastError == error
       && dead.queue == job.queue && dead.payload == job.payload && dead.priority == job.priority
       && dead.runAt == job.runAt && dead.createdAt == job.createdAt
       && dead.attempts == job.attempts && dead.maxAttempts == job.maxAttempts
  }

  /** What the producer gave the job. */
  predicate SameOrder(a: Job, b: Job) {
    && a.queue == b.queue && a.payload == b.payload && a.priority == b.priority
    && a.maxAttempts == b.maxAttempts && a.createdAt == b.createdAt && a.expiresAt == b.expiresAt
  }

  /** A job that nobody holds yet, as the producer asked for it. */
  predicate IsNew(job: Job, queue: string, payload: string, priority: int, maxAttempts: int, createdAt: int) {
    && job.queue == queue && job.payload == payload && job.priority == priority
    && job.maxAttempts == maxAttempts && job.createdAt == createdAt
    && job.state.Pending? && job.worker.None? && job.claimExpires.None? && job.attempts == 0
  }

  /** Enqueue adds the row and tells the queue's channel, and fails for a key that is taken. */
  lemma EnqueueActs(t: Tables, id: Id, queue: string, payload: string, cfg: EnqueueConfig, maxAttempts: int, clock: Readings)
    ensures var (t', r) := Enqueue(t, id, JobOf(queue, payload, cfg, maxAttempts, clock));
            && OthersUntouched(t, t', id) && t'.dead == t.dead
            && (id in t.live ==> r.Err? && t' == t)
            && (id !in t.live ==>
                  && r == Ok(true) && id in t'.live
                  && IsNew(t'.live[id], queue, payload, cfg.priority, maxAttempts, Stamp(clock.forCreation))
                  && t'.notices == t.notices + [Notice("ganso:" + queue, "new")])
  {}

  /** When a new job can be claimed: from its run time on, to the millisecond, whichever option gave
      it, and until its time to live is over. */
  lemma EnqueuedJobIsClaimable(queue: string, payload: string, cfg: EnqueueConfig, maxAttempts: int, clock: Readings, t: int)
    ensures var job := JobOf(queue, payload, cfg, maxAttempts, clock);
            var start := if cfg.delay > 0 then clock.forRun + cfg.delay else if cfg.runAt.Some? then cfg.runAt.value else clock.forRun;
            var end := clock.forExpiry + cfg.expires;
            && (start <= t && (cfg.expires > 0 ==> t + 1_000_000 <= end) ==> Claimable(job, queue, Stamp(t)))
            && (Claimable(job, queue, Stamp(t)) ==> start < t + 1_000_000 && (cfg.expires > 0 ==> t < end))
  {
    hide Claimable;
    var job := JobOf(queue, payload, cfg, maxAttempts, clock);
    assert Claimable(job, queue, Stamp(t)) <==> job.runAt <= Stamp(t) && (job.expiresAt.None? || Stamp(t) < job.expiresAt.value) by {
      NewJobClaimable(job, queue, Stamp(t));
    }
  }

  lemma NewJobClaimable(job: Job, queue: string, now: int)
    requires job.queue == queue && job.state.Pending?
    ensures Claimable(job, queue, now) <==> job.runAt <= now && (job.expiresAt.None? || now < job.expiresAt.value)
  {}

  /** A move to dead meets a taken key exactly when the id is dead already, which no run lets happen, and
      then nothing has changed. */
  lemma TakenKeyChangesNothing(t: Tables, queue: string, id: Id, worker: string, now: int, runAt: int, error: string)
    ensures var (t', r) := Fail(t, id, worker, now, error);
            (r.Err? <==> Held(t, id, worker, now) && id in t.dead) && (r.Err? ==> t' == t)
    ensures var (t', r) := Retry(t, queue, id, worker, now, runAt, error);
            && (r.Err? <==> Held(t, id, worker, now) && t.live[id].state.Processing?
                            && t.live[id].attempts >= t.live[id].maxAttempts && id in t.dead)
            && (r.Err? ==> t' == t)
    ensures var (t', r) := SweepExpired(t, queue, now);
            && (r.Err? <==> exists i :: i in t.live && i in t.dead && OverAge(t.live[i], queue, now))
            && (r.Err? ==> t' == t)
  {
    hide Holds;
    var expired := Expired(t, queue, now);
    assert forall i :: i in expired * t.dead.Keys <==> i in t.live && i in t.dead && OverAge(t.live[i], queue, now);
  }

  /** Ack removes the job exactly while the worker holds it. */
  lemma AckActs(t: Tables, id: Id, worker: string, now: int)
    ensures var (t', r) := Ack(t, id, worker, now);
            && r == Ok(Held(t, id, worker, now)) && OthersUntouched(t, t', id) && t'.dead == t.dead && t'.notices == t.notices
            && (if Held(t, id, worker, now) then id !in t'.live else t' == t)
  {}

  /** Fail kills the job exactly while the worker holds it. */
  lemma FailActs(t: Tables, id: Id, worker: string, now: int, error: string)
    requires Disjoint(t)
    ensures var (t', r) := Fail(t, id, worker, now, error);
            && r == Ok(Held(t, id, worker, now)) && OthersUntouched(t, t', id) && Disjoint(t') && t'.notices == t.notices
            && (if Held(t, id, worker, now) then Dies(t, t', id, error) else t' == t)
  {}

  /** Retry, exactly while the worker holds the job in processing, gives it back with no holder and
      its attempts unchanged, or kills it when it has no attempt left. */
  lemma RetryActs(t: Tables, queue: string, id: Id, worker: string, now: int, runAt: int, error: string)
    requires Disjoint(t)
    ensures var (t', r) := Retry(t, queue, id, worker, now, runAt, error);
            var acts := Held(t, id, worker, now) && t.live[id].state.Processing?;
            && r == Ok(acts) && OthersUntouched(t, t', id) && Disjoint(t')
            && (!acts ==> t' == t)
            && (acts && t.live[id].attempts < t.live[id].maxAttempts ==>
                  && id in t'.live && t'.live[id].state.Pending? && t'.live[id].worker.None? && t'.live[id].claimExpires.None?
                  && t'.live[id].runAt == runAt && t'.live[id].attempts == t.live[id].attempts
                  && SameOrder(t'.live[id], t.live[id])
                  && t'.notices == t.notices + [Notice("ganso:" + queue, "retry")])
            && (acts && t.live[id].attempts >= t.live[id].maxAttempts ==> Dies(t, t', id, error) && t'.notices == t.notices)
  {}

  /** Heartbeat moves the expiry of the claim exactly while the worker holds the job. */
  lemma HeartbeatActs(t: Tables, id: Id, worker: string, now: int, newExpiry: int)
    ensures var (t', r) := Heartbeat(t, id, worker, now, newExpiry);
            && r == Ok(Held(t, id, worker, now)) && OthersUntouched(t, t', id) && t'.dead == t.dead && t'.notices == t.notices
            && (!Held(t, id, worker, now) ==> t' == t)
            && (forall at :: Held(t, id, worker, now) && now <= at ==> (Held(t', id, worker, at) <==> at <= newExpiry))
            && (Held(t, id, worker, now) ==>
                  && SameOrder(t'.live[id], t.live[id]) && t'.live[id].runAt == t.live[id].runAt
                  && t'.live[id].state == t.live[id].state && t'.live[id].attempts == t.live[id].attempts)
  {}

  /** Cancel removes the job whoever holds it. */
  lemma CancelActs(t: Tables, id: Id)
    ensures var (t', r) := Cancel(t, id);
            r == Ok(id in t.live) && id !in t'.live && OthersUntouched(t, t', id) && t'.dead == t.dead && t'.notices == t.notices
  {}

  predicate OverAge(job: Job, queue: string, now: int) {
    job.queue == queue && job.expiresAt.Some? && job.expiresAt.value < now
  }

  /** A sweep does not fail; it counts the jobs it moves from live to dead. */
  lemma SweepCounts(t: Tables, queue: string, now: int)
    requires Disjoint(t)
    ensures var (t', r) := SweepExpired(t, queue, now); var expired := Expired(t, queue, now);
            r == Ok(|expired|) && t'.notices == t.notices && t'.live.Keys == t.live.Keys - expired && t'.dead.Keys == t.dead.Keys + expired
  {
    assert Expired(t, queue, now) * t.dead.Keys == {};
  }

  lemma SweepRow(t: Tables, queue: string, now: int, id: Id)
    requires Disjoint(t)
    ensures var t' := SweepExpired(t, queue, now).0;
            && (id in t.live ==> if OverAge(t.live[id], queue, now) then Dies(t, t', id, "expired")
                                 else id in t'.live && t'.live[id] == t.live[id])
            && (id in t.dead ==> id in t'.dead && t'.dead[id] == t.dead[id])
  {
    SweepCounts(t, queue, now);
    assert id in t.live ==> (id in Expired(t, queue, now) <==> OverAge(t.live[id], queue, now));
  }

  /** A sweep kills exactly the queue's jobs whose time to live is over, with everything they had,
      and leaves every other row alone. */
  lemma SweepActs(t: Tables, queue: string, now: int)
    requires Disjoint(t)
    ensures var t' := SweepExpired(t, queue, now).0;
            && (forall id :: id in t.live ==> if OverAge(t.live[id], queue, now) then Dies(t, t', id, "expired")
                                              else id in t'.live && t'.live[id] == t.live[id])
            && (forall id :: id in t.dead ==> id in t'.dead && t'.dead[id] == t.dead[id])
  {
    hide *;
    forall id { SweepRow(t, queue, now, id); }
  }
}
