/** What holds over every run of the job queue. */
module JobTheorems {
  import opened Base
  import opened Jobs
  import opened JobRuns

  lemma {:induction false} RunKeepsInv(w: World, es: seq<Event>)
    requires Inv(w) && ValidRun(w, es)
    ensures Inv(Run(w, es))
  {
    hide Inv, Next, Admissible;
    if es == [] {
    } else {
      RunKeepsInv(w, es[..|es| - 1]);
      StepKeepsInv(Run(w, es[..|es| - 1]), es[|es| - 1]);
    }
  }

  lemma StartIsGood()
    ensures Inv(START)
  {}

  /** The state before the i-th event of a run. */
  ghost function At(w: World, es: seq<Event>, i: nat): World
    requires i <= |es|
  {
    Run(w, es[..i])
  }

  lemma {:induction false} PrefixIsValid(w: World, es: seq<Event>, i: nat)
    requires ValidRun(w, es) && i <= |es|
    ensures ValidRun(w, es[..i])
    ensures i < |es| ==> Admissible(At(w, es, i), es[i]) && At(w, es, i + 1) == Next(At(w, es, i), es[i])
  {
    hide Next, Admissible;
    if i < |es| {
      var init := es[..|es| - 1];
      assert init[..i] == es[..i];
      if i < |es| - 1 {
        PrefixIsValid(w, init, i);
        assert init[..i + 1] == es[..i + 1];
      }
      assert es[..i + 1][..i] == es[..i];
    } else {
      assert es[..i] == es;
    }
  }

  // Conservation.

  /** In every run each id ever enqueued is in exactly one of live, dead, acked and cancelled; a
      job keeps its queue, payload, priority, creation time and attempt bound all its life and in
      death; and no statement of any operation ever meets a key that is taken. */
  lemma Conservation(es: seq<Event>)
    requires ValidRun(START, es)
    ensures var w := Run(START, es);
            && w.enqueued.Keys == w.tables.live.Keys + w.tables.dead.Keys + w.acked + w.cancelled
            && w.tables.live.Keys !! w.tables.dead.Keys !! w.acked !! w.cancelled
            && (forall id :: id in w.tables.live ==> SameJob(w.tables.live[id], w.enqueued[id]))
            && (forall id :: id in w.tables.dead ==> SameDead(w.tables.dead[id], w.enqueued[id]))
    ensures forall i :: 0 <= i < |es| ==> ReplyTo(At(START, es, i).tables, es[i]).Ok?
  {
    StartIsGood();
    RunKeepsInv(START, es);
    assert Inv(Run(START, es));
    hide Next, ReplyTo, SameJob, SameDead, Run;
    forall i | 0 <= i < |es| ensures ReplyTo(At(START, es, i).tables, es[i]).Ok? {
      PrefixIsValid(START, es, i);
      RunKeepsInv(START, es[..i]);
      hide Inv;
      StepKeepsInv(At(START, es, i), es[i]);
    }
  }

  /** One operation revokes no outcome. */
  lemma StepKeepsOutcomes(w: World, e: Event)
    requires Inv(w) && Admissible(w, e)
    ensures w.acked <= Next(w, e).acked && w.cancelled <= Next(w, e).cancelled
    ensures forall id :: id in w.tables.dead ==> id in Next(w, e).tables.dead && Next(w, e).tables.dead[id] == w.tables.dead[id]
    ensures forall id :: id in w.enqueued ==> id in Next(w, e).enqueued && Next(w, e).enqueued[id] == w.enqueued[id]
  {
    hide GoodRow, GoodDead, Bounded, Selected, ClaimAll, ClaimsOf, Bury, TallyClaims, TallyRetry, Holds;
    var t := w.tables;
    match e.op
    case EnqueueOp(_, _) =>
    case ClaimOp(_, _, _, _, _) =>
    case SweepOp(queue) =>
      assert Expired(t, queue, e.clock) * t.dead.Keys == {};
    case RetryOp(_, id, _, _, _) =>
      assert id in t.live ==> id !in t.dead;
    case FailOp(id, _, _) =>
      assert id in t.live ==> id !in t.dead;
    case _ =>
  }

  /** Terminal outcomes are final: with Conservation, a job gets at most one of them. */
  lemma {:induction false} OutcomesAreFinal(w: World, es: seq<Event>)
    requires Inv(w) && ValidRun(w, es)
    ensures var w' := Run(w, es);
            && w.acked <= w'.acked && w.cancelled <= w'.cancelled
            && (forall id :: id in w.tables.dead ==> id in w'.tables.dead && w'.tables.dead[id] == w.tables.dead[id])
            && (forall id :: id in w.enqueued ==> id in w'.enqueued && w'.enqueued[id] == w.enqueued[id])
  {
    hide Inv, Next, Admissible;
    if es == [] {
    } else {
      var init := es[..|es| - 1];
      OutcomesAreFinal(w, init);
      RunKeepsInv(w, init);
      StepKeepsOutcomes(Run(w, init), es[|es| - 1]);
    }
  }

  // Attempts.

  /** The attempts of a job count its claims, from pending and after a lapse; a pending job has
      attempts left; and no job is claimed from pending, or retried with success, more often than
      its bound allows. */
  lemma AttemptBound(es: seq<Event>)
    requires ValidRun(START, es)
    ensures var w := Run(START, es);
            && w.tables.live.Keys + w.tables.dead.Keys <= w.enqueued.Keys == w.tallies.Keys
            && (forall id :: id in w.tables.live ==>
                  && w.tables.live[id].attempts == w.tallies[id].fromPending + w.tallies[id].fromLapsed
                  && (w.tables.live[id].state.Pending? && w.enqueued[id].maxAttempts >= 1 ==>
                        w.tables.live[id].attempts < w.enqueued[id].maxAttempts))
            && (forall id :: id in w.tables.dead ==>
                  w.tables.dead[id].attempts == w.tallies[id].fromPending + w.tallies[id].fromLapsed)
            && (forall id :: id in w.enqueued && w.enqueued[id].maxAttempts >= 1 ==>
                  && w.tallies[id].fromPending <= w.enqueued[id].maxAttempts
                  && w.tallies[id].retries <= w.enqueued[id].maxAttempts)
  {
    StartIsGood();
    RunKeepsInv(START, es);
    hide Run;
    assert Inv(Run(START, es));
  }

  // Leases.

  /** The worker a live row names. */
  function Holder(t: Tables, id: Id): Option<string> {
    if id in t.live then t.live[id].worker else None
  }

  /** A claim hands the job to the worker. */
  ghost predicate Grants(t: Tables, op: Op, id: Id, worker: string) {
    op.ClaimOp? && op.worker == worker && id in Granted(t, op)
  }

  /** An operation that only the holder of an unexpired claim may carry out on the job. */
  predicate ByHolder(op: Op, id: Id, worker: string) {
    || (op.AckOp? && op.id == id && op.worker == worker)
    || (op.RetryOp? && op.id == id && op.worker == worker)
    || (op.FailOp? && op.id == id && op.worker == worker)
    || (op.HeartbeatOp? && op.id == id && op.worker == worker)
  }

  /** The step at which a holder's row stops naming it: its own successful retry, or a claim by
      someone after the claim expiry, as heartbeats left it, had passed. */
  ghost predicate LosesLease(t: Tables, e: Event, id: Id, worker: string) {
    && Holder(t, id) == Some(worker)
    && ( || (e.op.RetryOp? && e.op.id == id && e.op.worker == worker && ReplyTo(t, e) == Ok(true))
         || (e.op.ClaimOp? && id in Granted(t, e.op)
             && t.live[id].claimExpires.Some? && t.live[id].claimExpires.value < e.op.now <= e.clock))
  }

  /** Only a claim names a new holder. */
  lemma OnlyClaimsGrant(w: World, e: Event, id: Id, worker: string)
    requires Admissible(w, e) && Holder(w.tables, id) != Some(worker)
    ensures Holder(Step(w.tables, e), id) == Some(worker) <==> Grants(w.tables, e.op, id, worker)
  {
    hide Selected;
    var t := w.tables;
    match e.op
    case ClaimOp(queue, claimer, n, now, expires) =>
      assert Step(t, e).live == ClaimAll(t.live, Granted(t, e.op), claimer, expires);
    case _ =>
  }

  lemma StaleReply(t: Tables, e: Event, id: Id, worker: string)
    requires Holder(t, id) != Some(worker)
    ensures ByHolder(e.op, id, worker) ==> ReplyTo(t, e) == Ok(false) && Step(t, e) == t
    ensures e.op.AckBatchOp? && e.op.worker == worker && id in t.live ==>
              id in Step(t, e).live && Step(t, e).live[id] == t.live[id]
  {}

  /** Nobody becomes a holder but by a claim. */
  lemma {:induction false} NotGranted(w: World, es: seq<Event>, id: Id, worker: string)
    requires ValidRun(w, es) && Holder(w.tables, id) != Some(worker)
    requires forall i :: 0 <= i < |es| ==> !Grants(At(w, es, i).tables, es[i].op, id, worker)
    ensures Holder(Run(w, es).tables, id) != Some(worker)
  {
    hide Next, Admissible, Grants, Holder;
    if es == [] {
      assert Run(w, es) == w;
    } else {
      var init, e := es[..|es| - 1], es[|es| - 1];
      forall i | 0 <= i < |init| ensures !Grants(At(w, init, i).tables, init[i].op, id, worker) {
        assert init[..i] == es[..i] && init[i] == es[i];
      }
      assert !Grants(At(w, es, |es| - 1).tables, e.op, id, worker);
      assert Run(w, es) == Next(Run(w, init), e) && ValidRun(w, init) && Admissible(Run(w, init), e);
      hide Run, ValidRun;
      NotGranted(w, init, id, worker);
      NextTables(Run(w, init), e);
      if Holder(Run(w, es).tables, id) == Some(worker) { OnlyClaimsGrant(Run(w, init), e, id, worker); }
    }
  }

  /** Fencing: from any state in which the row does not name the worker, until a claim grants it
      the job, every Ack, Retry, Fail and Heartbeat of that worker answers false and changes
      nothing, and no AckBatch of it touches the job. */
  lemma Fenced(w: World, es: seq<Event>, id: Id, worker: string)
    requires ValidRun(w, es) && Holder(w.tables, id) != Some(worker)
    requires forall i :: 0 <= i < |es| ==> !Grants(At(w, es, i).tables, es[i].op, id, worker)
    ensures forall i :: 0 <= i < |es| ==>
              var t := At(w, es, i).tables;
              && Holder(t, id) != Some(worker)
              && (ByHolder(es[i].op, id, worker) ==> ReplyTo(t, es[i]) == Ok(false) && Step(t, es[i]) == t)
              && (es[i].op.AckBatchOp? && es[i].op.worker == worker && id in t.live ==>
                    id in Step(t, es[i]).live && Step(t, es[i]).live[id] == t.live[id])
    ensures Holder(Run(w, es).tables, id) != Some(worker)
  {
    NotGranted(w, es, id, worker);
    forall i | 0 <= i < |es|
      ensures var t := At(w, es, i).tables;
              && Holder(t, id) != Some(worker)
              && (ByHolder(es[i].op, id, worker) ==> ReplyTo(t, es[i]) == Ok(false) && Step(t, es[i]) == t)
              && (es[i].op.AckBatchOp? && es[i].op.worker == worker && id in t.live ==>
                    id in Step(t, es[i]).live && Step(t, es[i]).live[id] == t.live[id])
    {
      FencedBefore(w, es, id, worker, i);
      StaleReply(At(w, es, i).tables, es[i], id, worker);
      hide *;
    }
  }

  lemma FencedBefore(w: World, es: seq<Event>, id: Id, worker: string, i: nat)
    requires ValidRun(w, es) && Holder(w.tables, id) != Some(worker) && i <= |es|
    requires forall j :: 0 <= j < |es| ==> !Grants(At(w, es, j).tables, es[j].op, id, worker)
    ensures Holder(At(w, es, i).tables, id) != Some(worker)
  {
    PrefixIsValid(w, es, i);
    hide Next, Admissible, Grants, Holder, ValidRun, Run;
    forall j | 0 <= j < i ensures !Grants(At(w, es[..i], j).tables, es[..i][j].op, id, worker) {
      assert es[..i][..j] == es[..j] && es[..i][j] == es[j];
    }
    NotGranted(w, es[..i], id, worker);
  }

  lemma NextTables(w: World, e: Event)
    ensures Next(w, e).tables == Step(w.tables, e)
  {
    hide Step;
  }

  /** A live row that stops naming its holder does so in one of the two ways of LosesLease. */
  lemma HolderChanges(w: World, e: Event, id: Id, worker: string)
    requires Inv(w) && Admissible(w, e) && Holder(w.tables, id) == Some(worker)
    requires id in Step(w.tables, e).live && Holder(Step(w.tables, e), id) != Some(worker)
    ensures LosesLease(w.tables, e, id, worker)
  {
    InvAt(w, id);
    hide Inv, Selected;
    var t := w.tables;
    match e.op
    case ClaimOp(queue, claimer, n, now, expires) =>
      assert Step(t, e).live == ClaimAll(t.live, Granted(t, e.op), claimer, expires);
      assert id in Candidates(t.live, queue, now);
    case _ =>
  }

  /** Only enqueueing puts an id into live. */
  lemma LiveIdsAreEnqueued(t: Tables, e: Event, id: Id)
    requires id !in t.live && id in Step(t, e).live
    ensures e.op.EnqueueOp? && e.op.id == id
  {
    hide Selected;
  }

  /** A job that has left live does not come back. */
  lemma {:induction false} GoneStaysGone(w: World, es: seq<Event>, i: nat, id: Id)
    requires Inv(w) && ValidRun(w, es) && i <= |es|
    requires id in At(w, es, i).enqueued && id !in At(w, es, i).tables.live
    ensures id in Run(w, es).enqueued && id !in Run(w, es).tables.live
  {
    hide Inv, Next, Admissible;
    if i == |es| {
      assert es[..i] == es;
    } else {
      var init, e := es[..|es| - 1], es[|es| - 1];
      assert init[..i] == es[..i];
      GoneStaysGone(w, init, i, id);
      RunKeepsInv(w, init);
      var last := Run(w, init);
      StepKeepsOutcomes(last, e);
      NextTables(last, e);
      if id in Step(last.tables, e).live {
        LiveIdsAreEnqueued(last.tables, e, id);
        NotEnqueuedAgain(last, e, id);
        assert false;
      }
    }
  }

  /** Lease exclusivity: if a worker holds a job and later the job is live without naming it, then
      it held the job up to a first step that took it away, and that step was its own retry or a
      claim after its claim had expired. From that step on it is fenced. */
  lemma LeaseHandover(w: World, es: seq<Event>, id: Id, worker: string) returns (i: nat)
    requires Inv(w) && ValidRun(w, es)
    requires Holder(w.tables, id) == Some(worker)
    requires id in Run(w, es).tables.live && Holder(Run(w, es).tables, id) != Some(worker)
    ensures i < |es| && LosesLease(At(w, es, i).tables, es[i], id, worker)
    ensures forall j :: 0 <= j <= i ==> Holder(At(w, es, j).tables, id) == Some(worker)
    ensures Holder(At(w, es, i + 1).tables, id) != Some(worker)
  {
    assert es[..0] == [] && es[..|es|] == es && Run(w, []) == w;
    assert At(w, es, 0) == w && At(w, es, |es|) == Run(w, es) && id in w.tables.live;
    hide Inv, LosesLease, Run, ValidRun, Holder, At;
    i := 0;
    while i < |es| && Holder(At(w, es, i + 1).tables, id) == Some(worker)
      invariant i <= |es|
      invariant forall j :: 0 <= j <= i ==> Holder(At(w, es, j).tables, id) == Some(worker)
    {
      i := i + 1;
    }
    LossAt(w, es, i, id, worker);
  }

  lemma LossAt(w: World, es: seq<Event>, i: nat, id: Id, worker: string)
    requires Inv(w) && ValidRun(w, es) && i < |es|
    requires id in w.tables.live && id in Run(w, es).tables.live
    requires Holder(At(w, es, i).tables, id) == Some(worker) && Holder(At(w, es, i + 1).tables, id) != Some(worker)
    ensures LosesLease(At(w, es, i).tables, es[i], id, worker)
  {
    hide Inv, Next, Admissible, LosesLease, Run, ValidRun, Holder, Step;
    PrefixIsValid(w, es, i);
    RunKeepsInv(w, es[..i]);
    StillLive(w, es, i + 1, id);
    NextTables(At(w, es, i), es[i]);
    HolderChanges(At(w, es, i), es[i], id, worker);
  }

  lemma StillLive(w: World, es: seq<Event>, i: nat, id: Id)
    requires Inv(w) && ValidRun(w, es) && i <= |es|
    requires id in w.tables.live && id in Run(w, es).tables.live
    ensures id in At(w, es, i).tables.live
  {
    KnownId(w, id);
    PrefixIsValid(w, es, i);
    OutcomesAreFinal(w, es[..i]);
    hide Inv, Run, ValidRun;
    if id !in At(w, es, i).tables.live { GoneStaysGone(w, es, i, id); }
  }

  lemma KnownId(w: World, id: Id)
    requires Inv(w) && id in w.tables.live
    ensures id in w.enqueued
  {}

  lemma NotEnqueuedAgain(w: World, e: Event, id: Id)
    requires Admissible(w, e) && e.op.EnqueueOp? && e.op.id == id
    ensures id !in w.enqueued
  {}

  /** Runs compose at the front as well. */
  lemma {:induction false} RunFrom(w: World, e: Event, es: seq<Event>)
    ensures Run(w, [e] + es) == Run(Next(w, e), es)
    ensures Admissible(w, e) && ValidRun(Next(w, e), es) && (es != [] ==> e.clock <= es[0].clock) ==> ValidRun(w, [e] + es)
  {
    hide Next, Admissible;
    var all := [e] + es;
    if es == [] {
      assert all[..0] == [] && all == [e];
    } else {
      var init := es[..|es| - 1];
      assert all[..|all| - 1] == [e] + init;
      RunFrom(w, e, init);
      assert |es| == 1 ==> all[|all| - 2] == e;
      assert |es| > 1 ==> all[|all| - 2] == es[|es| - 2];
    }
  }
}
