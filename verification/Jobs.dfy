/** The job tables _ganso_live and _ganso_dead, and each queue operation as a transition on them.

    Timestamps are integers in the order of their text. Job ids are numbers in the order of
    theirs. The transitions say what the SQL of queue.go does to the rows; JobQueue carries them
    out in place. */
module Jobs {
  import opened Base

  type Id = nat

  datatype State = Pending | Processing

  /** A row of _ganso_live; None is SQL's NULL. */
  datatype Job = Job(
    queue: string,
    payload: string,
    priority: int,
    runAt: int,
    maxAttempts: int,
    createdAt: int,
    expiresAt: Option<int>,
    state: State,
    worker: Option<string>,
    claimExpires: Option<int>,
    attempts: nat)

  /** A row of _ganso_dead. */
  datatype DeadJob = DeadJob(
    queue: string,
    payload: string,
    priority: int,
    runAt: int,
    attempts: nat,
    maxAttempts: int,
    lastError: string,
    createdAt: int)

  datatype Notice = Notice(channel: string, payload: string)

  /** notices is what the operations have appended to _ganso_notifications. */
  datatype Tables = Tables(live: map<Id, Job>, dead: map<Id, DeadJob>, notices: seq<Notice>)

  /** The error of a statement that violates a primary key. */
  datatype DbError = KeyViolation

  type Reply = Result<bool, DbError>

  function NewJob(queue: string, payload: string, priority: int, runAt: int, maxAttempts: int,
                  createdAt: int, expiresAt: Option<int>): Job {
    Job(queue, payload, priority, runAt, maxAttempts, createdAt, expiresAt, Pending, None, None, 0)
  }

  /** What the options of Enqueue say; delay and expires are durations, run and now instants, all in
      nanoseconds. */
  datatype EnqueueConfig = EnqueueConfig(delay: int, runAt: Option<int>, expires: int, priority: int)

  /** The order of an instant's text in the layout of now and nowPlus (Timestamps.MillisTextOrder). */
  function Stamp(t: int): int {
    t / 1_000_000
  }

  /** The clock as the run time, the expiry and the creation time read it. */
  datatype Readings = Readings(forRun: int, forExpiry: int, forCreation: int)

  function JobOf(queue: string, payload: string, cfg: EnqueueConfig, maxAttempts: int, clock: Readings): Job {
    NewJob(queue, payload, cfg.priority,
           if cfg.delay > 0 then Stamp(clock.forRun + cfg.delay)
           else if cfg.runAt.Some? then Stamp(cfg.runAt.value)
           else Stamp(clock.forRun),
           maxAttempts, Stamp(clock.forCreation),
           if cfg.expires > 0 then Some(Stamp(clock.forExpiry + cfg.expires)) else None)
  }

  function Bury(job: Job, error: string): DeadJob {
    DeadJob(job.queue, job.payload, job.priority, job.runAt, job.attempts, job.maxAttempts, error, job.createdAt)
  }

  function Channel(queue: string): string {
    "ganso:" + queue
  }

  /** worker_id = worker AND claim_expires_at >= now. */
  predicate Holds(job: Job, worker: string, now: int) {
    job.worker == Some(worker) && job.claimExpires.Some? && job.claimExpires.value >= now
  }

  predicate Held(t: Tables, id: Id, worker: string, now: int) {
    id in t.live && Holds(t.live[id], worker, now)
  }

  function Enqueue(t: Tables, id: Id, job: Job): (Tables, Reply) {
    if id in t.live then (t, Err(KeyViolation))
    else (t.(live := t.live[id := job], notices := t.notices + [Notice(Channel(job.queue), "new")]), Ok(true))
  }

  function Ack(t: Tables, id: Id, worker: string, now: int): (Tables, Reply) {
    if Held(t, id, worker, now) then (t.(live := t.live - {id}), Ok(true)) else (t, Ok(false))
  }

  /** The ids of one AckBatch statement that match a row. */
  function Acked(t: Tables, ids: seq<Id>, worker: string, now: int): set<Id> {
    set id | id in ids && Held(t, id, worker, now)
  }

  function AckBatch(t: Tables, ids: seq<Id>, worker: string, now: int): (Tables, nat) {
    var acked := Acked(t, ids, worker, now);
    (t.(live := t.live - acked), |acked|)
  }

  /** DELETE from _ganso_live, INSERT into _ganso_dead, in one transaction. */
  function MoveToDead(t: Tables, id: Id, error: string): (Tables, Reply)
    requires id in t.live
  {
    if id in t.dead then (t, Err(KeyViolation))
    else (t.(live := t.live - {id}, dead := t.dead[id := Bury(t.live[id], error)]), Ok(true))
  }

  function Retry(t: Tables, queue: string, id: Id, worker: string, now: int, runAt: int, error: string): (Tables, Reply) {
    if !Held(t, id, worker, now) || t.live[id].state != Processing then (t, Ok(false))
    else
      var job := t.live[id];
      if job.attempts >= job.maxAttempts then MoveToDead(t, id, error)
      else
        var pending := job.(state := Pending, runAt := runAt, worker := None, claimExpires := None);
        (t.(live := t.live[id := pending], notices := t.notices + [Notice(Channel(queue), "retry")]), Ok(true))
  }

  function Fail(t: Tables, id: Id, worker: string, now: int, error: string): (Tables, Reply) {
    if Held(t, id, worker, now) then MoveToDead(t, id, error) else (t, Ok(false))
  }

  function Heartbeat(t: Tables, id: Id, worker: string, now: int, newExpiry: int): (Tables, Reply) {
    if Held(t, id, worker, now) then
      (t.(live := t.live[id := t.live[id].(claimExpires := Some(newExpiry))]), Ok(true))
    else (t, Ok(false))
  }

  function Cancel(t: Tables, id: Id): (Tables, Reply) {
    if id in t.live then (t.(live := t.live - {id}), Ok(true)) else (t, Ok(false))
  }

  function Expired(t: Tables, queue: string, now: int): set<Id> {
    set id | id in t.live && t.live[id].queue == queue && t.live[id].expiresAt.Some? && t.live[id].expiresAt.value < now
  }

  function SweepExpired(t: Tables, queue: string, now: int): (Tables, Result<nat, DbError>) {
    var expired := Expired(t, queue, now);
    if expired * t.dead.Keys != {} then (t, Err(KeyViolation))
    else (t.(live := t.live - expired, dead := t.dead + (map id | id in expired :: Bury(t.live[id], "expired"))), Ok(|expired|))
  }

  // Claiming.

  predicate Claimable(job: Job, queue: string, now: int) {
    && job.queue == queue
    && (job.expiresAt.None? || job.expiresAt.value > now)
    && match job.state
       case Pending => job.runAt <= now
       case Processing => job.claimExpires.Some? && job.claimExpires.value < now
  }

  function Candidates(live: map<Id, Job>, queue: string, now: int): set<Id> {
    set id | id in live && Claimable(live[id], queue, now)
  }

  /** priority DESC, run_at ASC, id ASC. */
  predicate Before(live: map<Id, Job>, a: Id, b: Id)
    requires a in live && b in live
  {
    var x, y := live[a], live[b];
    || x.priority > y.priority
    || (x.priority == y.priority && (x.runAt < y.runAt || (x.runAt == y.runAt && a < b)))
  }

  predicate IsFirst(live: map<Id, Job>, ids: set<Id>, first: Id)
    requires ids <= live.Keys
  {
    first in ids && forall id :: id in ids && id != first ==> Before(live, first, id)
  }

  lemma {:induction false} FirstExists(live: map<Id, Job>, ids: set<Id>) returns (first: Id)
    requires ids != {} && ids <= live.Keys
    ensures IsFirst(live, ids, first)
    decreases ids
  {
    var id := AMember(ids);
    if ids == {id} {
      first := id;
    } else {
      assert ids == (ids - {id}) + {id};
      var other := FirstExists(live, ids - {id});
      first := if Before(live, id, other) then id else other;
    }
  }

  /** The ids in the order of the ORDER BY clause. */
  ghost function Ordered(live: map<Id, Job>, ids: set<Id>): (s: seq<Id>)
    requires ids <= live.Keys
    ensures forall id :: id in s <==> id in ids
    decreases ids
  {
    if ids == {} then []
    else
      assert exists first :: IsFirst(live, ids, first) by { var _ := FirstExists(live, ids); }
      var first :| IsFirst(live, ids, first);
      [first] + Ordered(live, ids - {first})
  }

  ghost function Selected(t: Tables, queue: string, n: int, now: int): (ids: seq<Id>)
    ensures forall id :: id in ids ==> id in Candidates(t.live, queue, now)
  {
    Limit(Ordered(t.live, Candidates(t.live, queue, now)), n)
  }

  function Claimed(job: Job, worker: string, expires: int): Job {
    job.(state := Processing, worker := Some(worker), claimExpires := Some(expires), attempts := job.attempts + 1)
  }

  function ClaimAll(live: map<Id, Job>, ids: set<Id>, worker: string, expires: int): map<Id, Job> {
    map id | id in live :: if id in ids then Claimed(live[id], worker, expires) else live[id]
  }

  /** A job as ClaimBatch returns it. */
  datatype Claim = Claim(id: Id, queue: string, payload: string, worker: string, attempts: nat, claimExpires: int)

  function ClaimOf(live: map<Id, Job>, id: Id, worker: string, expires: int): Claim
    requires id in live
  {
    Claim(id, live[id].queue, live[id].payload, worker, live[id].attempts + 1, expires)
  }

  function ClaimsOf(live: map<Id, Job>, ids: seq<Id>, worker: string, expires: int): (claims: seq<Claim>)
    requires forall id :: id in ids ==> id in live
    ensures |claims| == |ids|
    ensures forall i :: 0 <= i < |ids| ==> claims[i] == ClaimOf(live, ids[i], worker, expires)
  {
    if ids == [] then [] else [ClaimOf(live, ids[0], worker, expires)] + ClaimsOf(live, ids[1..], worker, expires)
  }

  ghost function ClaimBatch(t: Tables, queue: string, worker: string, n: int, now: int, expires: int): (Tables, seq<Claim>) {
    var ids := Selected(t, queue, n, now);
    (t.(live := ClaimAll(t.live, Elements(ids), worker, expires)), ClaimsOf(t.live, ids, worker, expires))
  }

  // nextClaimAt.

  function Deadlines(live: map<Id, Job>, queue: string, now: int): set<int> {
    (set id | id in live && live[id].queue == queue && live[id].state == Pending
              && (live[id].expiresAt.None? || live[id].expiresAt.value > now) && live[id].runAt > now
       :: live[id].runAt)
    + (set id | id in live && live[id].queue == queue && live[id].state == Processing
                && (live[id].expiresAt.None? || live[id].expiresAt.value > now)
                && live[id].claimExpires.Some? && live[id].claimExpires.value >= now
         :: live[id].claimExpires.value)
  }

  /** MIN over the deadlines; None is the empty string of nextClaimAt. */
  ghost predicate IsNextClaimAt(live: map<Id, Job>, queue: string, now: int, deadline: Option<int>) {
    match deadline
    case None => Deadlines(live, queue, now) == {}
    case Some(d) => d in Deadlines(live, queue, now) && forall e :: e in Deadlines(live, queue, now) ==> d <= e
  }
}
