/** The database handle: queue.go's operations on the job tables, carried out in place.

    Each method is one critical section of writerMu. Clock readings and fresh ids are
    parameters. A method leaves the tables as the transition of Jobs with the same name does. */
module JobQueue {
  import opened Base
  import opened Jobs

  class Database {
    var live: map<Id, Job>
    var dead: map<Id, DeadJob>
    var notices: seq<Notice>

    constructor ()
      ensures Snapshot() == Tables(map[], map[], [])
    {
      live, dead, notices := map[], map[], [];
    }

    function Snapshot(): Tables
      reads this
    {
      Tables(live, dead, notices)
    }

    /** The INSERT of a job and its notification, in a transaction. */
    method InsertJob(id: Id, queue: string, payload: string, priority: int, runAt: int, maxAttempts: int,
                   createdAt: int, expiresAt: Option<int>)
        returns (r: Reply)
      modifies this
      ensures (Snapshot(), r) == Jobs.Enqueue(old(Snapshot()), id, NewJob(queue, payload, priority, runAt, maxAttempts, createdAt, expiresAt))
    {
      if id in live { return Err(KeyViolation); }
      live := live[id := NewJob(queue, payload, priority, runAt, maxAttempts, createdAt, expiresAt)];
      notices := notices + [Notice(Channel(queue), "new")];
      return Ok(true);
    }

    /** enqueueOnConn. */
    method Enqueue(id: Id, queue: string, payload: string, cfg: EnqueueConfig, maxAttempts: int, clock: Readings)
        returns (r: Reply)
      modifies this
      ensures (Snapshot(), r) == Jobs.Enqueue(old(Snapshot()), id, JobOf(queue, payload, cfg, maxAttempts, clock))
    {
      var runAt := Stamp(clock.forRun);
      if cfg.delay > 0 {
        runAt := Stamp(clock.forRun + cfg.delay);
      } else if cfg.runAt.Some? {
        runAt := Stamp(cfg.runAt.value);
      }
      var expiresAt := None;
      if cfg.expires > 0 { expiresAt := Some(Stamp(clock.forExpiry + cfg.expires)); }
      r := InsertJob(id, queue, payload, cfg.priority, runAt, maxAttempts, Stamp(clock.forCreation), expiresAt);
    }

    /** The SELECT of ClaimBatch: the rows of ids, ordered. */
    method SelectOrdered(ids: set<Id>) returns (ordered: seq<Id>)
      requires ids <= live.Keys
      ensures ordered == Ordered(live, ids)
    {
      hide Before, Ordered;
      ordered := [];
      var rest := ids;
      while rest != {}
        invariant rest <= ids
        invariant ordered + Ordered(live, rest) == Ordered(live, ids)
        decreases rest
      {
        assert exists first :: IsFirst(live, rest, first) by { var _ := FirstExists(live, rest); }
        var first :| first in rest && IsFirst(live, rest, first);
        OrderedStep(live, rest, first);
        ordered := ordered + [first];
        rest := rest - {first};
      }
      OrderedNone(live);
    }

    method ClaimBatch(queue: string, worker: string, n: int, now: int, expires: int) returns (claims: seq<Claim>)
      modifies this
      ensures (Snapshot(), claims) == Jobs.ClaimBatch(old(Snapshot()), queue, worker, n, now, expires)
    {
      // Step 1: candidate ids in priority order.
      var orderedIds := SelectOrdered(Candidates(live, queue, now));
      orderedIds := Limit(orderedIds, n);
      assert orderedIds == Selected(Snapshot(), queue, n, now);
      if |orderedIds| == 0 {
        NothingSelected(live, orderedIds, worker, expires);
        return [];
      }

      // Step 2: update the selected rows and collect what RETURNING gives.
      ghost var before := live;
      var jobMap := UpdateReturning(Elements(orderedIds), worker, expires);

      // Step 3: back to the order of step 1.
      claims := InOrder(orderedIds, jobMap);
      assert claims == ClaimsOf(before, orderedIds, worker, expires);
    }

    method InOrder(ids: seq<Id>, jobMap: map<Id, Claim>) returns (claims: seq<Claim>)
      requires forall id :: id in ids ==> id in jobMap
      ensures |claims| == |ids|
      ensures forall k :: 0 <= k < |ids| ==> claims[k] == jobMap[ids[k]]
    {
      claims := [];
      for i := 0 to |ids|
        invariant |claims| == i
        invariant forall k :: 0 <= k < i ==> claims[k] == jobMap[ids[k]]
      {
        if ids[i] in jobMap { claims := claims + [jobMap[ids[i]]]; }
      }
    }

    /** The UPDATE of ClaimBatch, whose RETURNING rows come in no particular order. */
    method UpdateReturning(ids: set<Id>, worker: string, expires: int) returns (jobMap: map<Id, Claim>)
      requires ids <= live.Keys
      modifies this`live
      ensures live == ClaimAll(old(live), ids, worker, expires)
      ensures jobMap.Keys == ids
      ensures forall id :: id in ids ==> jobMap[id] == ClaimOf(old(live), id, worker, expires)
    {
      jobMap := map[];
      var returning := ids;
      while returning != {}
        invariant live == old(live) && returning <= ids
        invariant jobMap.Keys == ids - returning
        invariant forall id :: id in jobMap ==> jobMap[id] == ClaimOf(live, id, worker, expires)
        decreases returning
      {
        var id := Choose(returning);
        jobMap := jobMap[id := ClaimOf(live, id, worker, expires)];
        returning := returning - {id};
      }
      live := ClaimAll(live, ids, worker, expires);
    }

    method Ack(id: Id, worker: string, now: int) returns (r: Reply)
      modifies this
      ensures (Snapshot(), r) == Jobs.Ack(old(Snapshot()), id, worker, now)
    {
      var changes := if id in live && Holds(live[id], worker, now) then {id} else {};
      assert live - {} == live;
      live := live - changes;
      return Ok(|changes| > 0);
    }

    method AckBatch(ids: seq<Id>, worker: string, now: int) returns (count: nat)
      modifies this
      ensures (Snapshot(), count) == Jobs.AckBatch(old(Snapshot()), ids, worker, now)
    {
      var changes := set id | id in ids && id in live && Holds(live[id], worker, now);
      assert changes == Acked(Snapshot(), ids, worker, now);
      live := live - changes;
      return |changes|;
    }

    /** insertDead: fails when the key is taken. */
    method InsertDead(id: Id, row: Job, error: string) returns (ok: bool)
      modifies this`dead
      ensures ok <==> id !in old(dead)
      ensures dead == if ok then old(dead)[id := Bury(row, error)] else old(dead)
    {
      if id in dead { return false; }
      dead := dead[id := DeadJob(row.queue, row.payload, row.priority, row.runAt, row.attempts, row.maxAttempts, error, row.createdAt)];
      return true;
    }

    method Retry(queue: string, id: Id, worker: string, now: int, runAt: int, error: string) returns (r: Reply)
      modifies this
      ensures (Snapshot(), r) == Jobs.Retry(old(Snapshot()), queue, id, worker, now, runAt, error)
    {
      var begin := live;
      if !(id in live && Holds(live[id], worker, now) && live[id].state == Processing) { return Ok(false); }
      var row := live[id];
      if row.attempts >= row.maxAttempts {
        live := live - {id};
        var ok := InsertDead(id, row, error);
        if !ok {
          live := begin;
          return Err(KeyViolation);
        }
        return Ok(true);
      }
      live := live[id := row.(state := Pending, runAt := runAt, worker := None, claimExpires := None)];
      notices := notices + [Notice(Channel(queue), "retry")];
      return Ok(true);
    }

    method Fail(id: Id, worker: string, now: int, error: string) returns (r: Reply)
      modifies this
      ensures (Snapshot(), r) == Jobs.Fail(old(Snapshot()), id, worker, now, error)
    {
      var begin := live;
      if !(id in live && Holds(live[id], worker, now)) { return Ok(false); }
      var row := live[id];
      live := live - {id};
      var ok := InsertDead(id, row, error);
      if !ok {
        live := begin;
        return Err(KeyViolation);
      }
      return Ok(true);
    }

    method Heartbeat(id: Id, worker: string, now: int, newExpiry: int) returns (r: Reply)
      modifies this`live
      ensures (Snapshot(), r) == Jobs.Heartbeat(old(Snapshot()), id, worker, now, newExpiry)
    {
      if !(id in live && Holds(live[id], worker, now)) { return Ok(false); }
      live := live[id := live[id].(claimExpires := Some(newExpiry))];
      return Ok(true);
    }

    method Cancel(id: Id) returns (r: Reply)
      modifies this`live
      ensures (Snapshot(), r) == Jobs.Cancel(old(Snapshot()), id)
    {
      if id !in live { return Ok(false); }
      live := live - {id};
      return Ok(true);
    }

    method SweepExpired(queue: string, now: int) returns (r: Result<nat, DbError>)
      modifies this
      ensures (Snapshot(), r) == Jobs.SweepExpired(old(Snapshot()), queue, now)
    {
      var beginLive, beginDead := live, dead;
      var expired := Expired(Snapshot(), queue, now);
      live := live - expired;
      var ok := InsertAllDead(expired, beginLive, "expired");
      if !ok {
        live, dead := beginLive, beginDead;
        return Err(KeyViolation);
      }
      return Ok(|expired|);
    }

    /** One insertDead per row that the DELETE returned. */
    method InsertAllDead(ids: set<Id>, rows: map<Id, Job>, error: string) returns (ok: bool)
      requires ids <= rows.Keys
      modifies this`dead
      ensures ok <==> ids * old(dead).Keys == {}
      ensures ok ==> dead == old(dead) + map id | id in ids :: Bury(rows[id], error)
    {
      hide Bury;
      var rest := ids;
      while rest != {}
        invariant rest <= ids
        invariant ids - rest !! old(dead).Keys
        invariant dead.Keys == old(dead).Keys + (ids - rest)
        invariant forall id :: id in old(dead) ==> dead[id] == old(dead)[id]
        invariant forall id :: id in ids - rest ==> dead[id] == Bury(rows[id], error)
        decreases rest
      {
        var id := Choose(rest);
        ok := InsertDead(id, rows[id], error);
        if !ok {
          assert id in ids * old(dead).Keys;
          return false;
        }
        rest := rest - {id};
      }
      return true;
    }

    method NextClaimAt(queue: string, now: int) returns (deadline: Option<int>)
      ensures IsNextClaimAt(live, queue, now, deadline)
    {
      var deadlines := Deadlines(live, queue, now);
      if deadlines == {} { return None; }
      var least := LeastOf(deadlines);
      return Some(least);
    }
  }

  /** SELECT MIN. */
  method LeastOf(s: set<int>) returns (least: int)
    requires s != {}
    ensures least == Least(s)
  {
    least := Choose(s);
    var rest := s - {least};
    while rest != {}
      invariant rest <= s && least in s
      invariant forall v :: v in s && v !in rest ==> least <= v
      decreases rest
    {
      var v := Choose(rest);
      if v < least { least := v; }
      rest := rest - {v};
    }
  }

  lemma OrderedStep(live: map<Id, Job>, ids: set<Id>, first: Id)
    requires ids <= live.Keys && IsFirst(live, ids, first)
    ensures Ordered(live, ids) == [first] + Ordered(live, ids - {first})
  {
    var other := Ordered(live, ids)[0];
    assert IsFirst(live, ids, other);
    assert first == other;
  }

  lemma OrderedNone(live: map<Id, Job>)
    ensures Ordered(live, {}) == []
  {}

  lemma NothingSelected(live: map<Id, Job>, ids: seq<Id>, worker: string, expires: int)
    requires ids == []
    ensures ClaimAll(live, Elements(ids), worker, expires) == live
  {}
}
