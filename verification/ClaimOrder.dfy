/** Batch operations against single ones, the claim order, and nextClaimAt. */
module ClaimOrder {
  import opened Base
  import opened Jobs
  import opened JobEffects

  predicate SortedBefore(live: map<Id, Job>, s: seq<Id>)
    requires forall id :: id in s ==> id in live
  {
    forall i, j :: 0 <= i < j < |s| ==> Before(live, s[i], s[j])
  }

  /** Priorities do not rise; at equal priority run times do not fall; at equal both the ids rise. */
  lemma OrderedByPriority(live: map<Id, Job>, ids: set<Id>)
    requires ids <= live.Keys
    ensures var s := Ordered(live, ids);
            && |s| == |ids|
            && forall i, j :: 0 <= i < j < |s| ==>
                 && live[s[i]].priority >= live[s[j]].priority
                 && (live[s[i]].priority == live[s[j]].priority ==> live[s[i]].runAt <= live[s[j]].runAt)
                 && (live[s[i]].priority == live[s[j]].priority && live[s[i]].runAt == live[s[j]].runAt ==> s[i] < s[j])
  {
    OrderedIsSorted(live, ids);
    var s := Ordered(live, ids);
    assert forall i :: 0 <= i < |s| ==> s[i] in s;
    hide Ordered;
  }

  lemma {:induction false} OrderedIsSorted(live: map<Id, Job>, ids: set<Id>)
    requires ids <= live.Keys
    ensures SortedBefore(live, Ordered(live, ids))
    ensures |Ordered(live, ids)| == |ids|
  {
    if ids == {} {
    } else {
      var first := Ordered(live, ids)[0];
      var rest := Ordered(live, ids - {first});
      assert IsFirst(live, ids, first) && Ordered(live, ids) == [first] + rest;
      OrderedIsSorted(live, ids - {first});
      assert forall i :: 0 <= i < |rest| ==> rest[i] in rest;
      hide Ordered, Before;
    }
  }

  lemma OrderedHead(live: map<Id, Job>, ids: set<Id>)
    requires ids != {} && ids <= live.Keys
    ensures var s := Ordered(live, ids);
            s != [] && IsFirst(live, ids, s[0]) && s[1..] == Ordered(live, ids - {s[0]})
  {
    var first := Ordered(live, ids)[0];
    assert Ordered(live, ids) == [first] + Ordered(live, ids - {first});
  }

  /** ClaimBatch picks claimable jobs only, as many as there are up to n: the highest priorities, at
      equal priority the earliest run times, and at equal both the lowest ids, in that order. */
  lemma ClaimBatchPicksFirst(t: Tables, queue: string, n: int, now: int)
    ensures var live, ids := t.live, Selected(t, queue, n, now);
            var candidates := Candidates(live, queue, now);
            && |ids| == (if 0 <= n <= |candidates| then n else |candidates|)
            && (forall i :: 0 <= i < |ids| ==> ids[i] in live && Claimable(live[ids[i]], queue, now))
            && (forall i, j :: 0 <= i < j < |ids| ==>
                  && live[ids[i]].priority >= live[ids[j]].priority
                  && (live[ids[i]].priority == live[ids[j]].priority ==> live[ids[i]].runAt <= live[ids[j]].runAt)
                  && (live[ids[i]].priority == live[ids[j]].priority && live[ids[i]].runAt == live[ids[j]].runAt ==> ids[i] < ids[j]))
            && (forall i, id :: 0 <= i < |ids| && id in live && Claimable(live[id], queue, now) && id !in ids ==>
                  && live[ids[i]].priority >= live[id].priority
                  && (live[ids[i]].priority == live[id].priority ==> live[ids[i]].runAt <= live[id].runAt)
                  && (live[ids[i]].priority == live[id].priority && live[ids[i]].runAt == live[id].runAt ==> ids[i] < id))
  {
    PicksFirst(t, queue, n, now);
    var ids := Selected(t, queue, n, now);
    assert forall i :: 0 <= i < |ids| ==> ids[i] in ids && ids[i] in Candidates(t.live, queue, now);
    assert forall id :: id in t.live && Claimable(t.live[id], queue, now) ==> id in Candidates(t.live, queue, now);
    hide Selected, Claimable;
  }

  lemma PicksFirst(t: Tables, queue: string, n: int, now: int)
    ensures var ids := Selected(t, queue, n, now);
            var candidates := Candidates(t.live, queue, now);
            && |ids| == (if 0 <= n <= |candidates| then n else |candidates|)
            && SortedBefore(t.live, ids)
            && (forall i, id :: 0 <= i < |ids| && id in candidates && id !in ids ==> Before(t.live, ids[i], id))
  {
    var candidates := Candidates(t.live, queue, now);
    var s := Ordered(t.live, candidates);
    var ids := Selected(t, queue, n, now);
    OrderedIsSorted(t.live, candidates);
    assert forall i :: 0 <= i < |s| ==> s[i] in s;
    assert forall i :: 0 <= i < |ids| ==> ids[i] in ids;
    assert forall i :: 0 <= i < |ids| ==> ids[i] == s[i];
    assert SortedBefore(t.live, ids) by { hide Ordered, Selected, Before, Claimable; }
    hide Ordered, Selected, Before, Claimable;
    forall i, id | 0 <= i < |ids| && id in candidates && id !in ids ensures Before(t.live, ids[i], id) {
      assert id in s;
      var j :| 0 <= j < |s| && s[j] == id;
      assert forall k :: 0 <= k < |ids| ==> s[k] != id;
    }
  }

  /** The row names the worker and the lease of the claim that was returned. */
  predicate GrantedTo(job: Job, claim: Claim, worker: string, expires: int) {
    && job.state == Processing && job.worker == Some(worker) && job.claimExpires == Some(expires)
    && claim.worker == worker && claim.claimExpires == expires && claim.attempts == job.attempts
    && claim.queue == job.queue && claim.payload == job.payload
  }

  /** What ClaimBatch returns, in the order it picked, with one attempt more and otherwise the same job: each claim as the update left its row. The
      other rows stay as they were. */
  lemma ClaimBatchReturnsRows(t: Tables, queue: string, worker: string, n: int, now: int, expires: int)
    ensures var ids := Selected(t, queue, n, now);
            var (t', claims) := ClaimBatch(t, queue, worker, n, now, expires);
            && |claims| == |ids|
            && (forall i :: 0 <= i < |ids| ==>
                  && claims[i].id == ids[i] && ids[i] in t.live && ids[i] in t'.live
                  && GrantedTo(t'.live[ids[i]], claims[i], worker, expires)
                  && t'.live[ids[i]].attempts == t.live[ids[i]].attempts + 1
                  && SameOrder(t'.live[ids[i]], t.live[ids[i]]) && t'.live[ids[i]].runAt == t.live[ids[i]].runAt)
            && t'.live.Keys == t.live.Keys && t'.dead == t.dead && t'.notices == t.notices
            && (forall id :: id in t.live && id !in ids ==> id in t'.live && t'.live[id] == t.live[id])
  {
    var ids := Selected(t, queue, n, now);
    assert forall i :: 0 <= i < |ids| ==> ids[i] in ids;
    hide Selected;
  }

  // ClaimBatch and ClaimOne.

  /** ClaimOne, n times at one instant. */
  ghost function ClaimOnes(t: Tables, queue: string, worker: string, n: nat, now: int, expires: int): (Tables, seq<Claim>)
    decreases n
  {
    if n == 0 then (t, [])
    else
      var (t', first) := ClaimBatch(t, queue, worker, 1, now, expires);
      var (t'', rest) := ClaimOnes(t', queue, worker, n - 1, now, expires);
      (t'', first + rest)
  }

  lemma ClaimNothing(t: Tables, queue: string, worker: string, n: int, now: int, expires: int)
    requires Candidates(t.live, queue, now) == {} || n == 0
    ensures ClaimBatch(t, queue, worker, n, now, expires) == (t, [])
  {
    assert Selected(t, queue, n, now) == [];
    assert ClaimAll(t.live, Elements([]), worker, expires) == t.live;
  }

  /** A claimed job is no candidate while its claim lasts, and the others keep their order. */
  lemma AfterFirstClaim(live: map<Id, Job>, queue: string, worker: string, now: int, expires: int, first: Id)
    requires first in Candidates(live, queue, now) && now <= expires
    ensures var live' := ClaimAll(live, {first}, worker, expires);
            Candidates(live', queue, now) == Candidates(live, queue, now) - {first}
  {}

  lemma {:induction false} OrderedUnaffected(live: map<Id, Job>, live': map<Id, Job>, ids: set<Id>)
    requires ids <= live.Keys && live'.Keys == live.Keys
    requires forall id :: id in ids ==> live'[id] == live[id]
    ensures Ordered(live', ids) == Ordered(live, ids)
    decreases ids
  {
    if ids == {} {
    } else {
      OrderedHead(live, ids);
      OrderedHead(live', ids);
      var a, b := Ordered(live, ids), Ordered(live', ids);
      assert a[0] == b[0];
      hide Ordered, Before;
      OrderedUnaffected(live, live', ids - {a[0]});
      assert a == [a[0]] + a[1..] && b == [b[0]] + b[1..];
    }
  }

  lemma ClaimAllTwice(live: map<Id, Job>, a: set<Id>, b: set<Id>, worker: string, expires: int)
    requires a !! b
    ensures ClaimAll(ClaimAll(live, a, worker, expires), b, worker, expires) == ClaimAll(live, a + b, worker, expires)
  {}

  lemma {:induction false} ClaimsOfUnaffected(live: map<Id, Job>, live': map<Id, Job>, ids: seq<Id>, worker: string, expires: int)
    requires forall id :: id in ids ==> id in live && id in live' && live'[id] == live[id]
    ensures ClaimsOf(live', ids, worker, expires) == ClaimsOf(live, ids, worker, expires)
  {
    var a, b := ClaimsOf(live, ids, worker, expires), ClaimsOf(live', ids, worker, expires);
    assert forall i :: 0 <= i < |ids| ==> ids[i] in ids;
    assert forall i :: 0 <= i < |ids| ==> a[i] == b[i];
  }

  /** One claim peeled off a batch leaves the batch of the rest. */
  lemma ClaimBatchStep(t: Tables, queue: string, worker: string, n: nat, now: int, expires: int)
    requires n > 0 && now <= expires && Candidates(t.live, queue, now) != {}
    ensures var (t', first) := ClaimBatch(t, queue, worker, 1, now, expires);
            var (t'', rest) := ClaimBatch(t', queue, worker, n - 1, now, expires);
            ClaimBatch(t, queue, worker, n, now, expires) == (t'', first + rest)
  {
    var candidates := Candidates(t.live, queue, now);
    var s := Ordered(t.live, candidates);
    OrderedHead(t.live, candidates);
    var head := s[0];
    var one := Selected(t, queue, 1, now);
    assert one == [head];
    assert Elements(one) == {head};
    var live' := ClaimAll(t.live, {head}, worker, expires);
    var t' := t.(live := live');
    assert ClaimBatch(t, queue, worker, 1, now, expires) == (t', ClaimsOf(t.live, [head], worker, expires));
    AfterFirstClaim(t.live, queue, worker, now, expires, head);
    OrderedUnaffected(t.live, live', candidates - {head});
    var many, fewer := Selected(t, queue, n, now), Selected(t', queue, n - 1, now);
    assert fewer == Limit(s[1..], n - 1);
    LimitStep(s, n);
    assert many == [head] + fewer;
    OrderedIsSorted(t.live, candidates);
    assert head !in fewer by {
      assert forall id :: id in fewer ==> id in candidates - {head};
    }
    hide Ordered, Candidates, Selected, Before, Claimable, Claimed;
    ClaimBatchOfSplit(t, live', head, fewer, worker, expires);
  }

  lemma LimitStep<T>(s: seq<T>, n: nat)
    requires s != [] && n > 0
    ensures Limit(s, n) == [s[0]] + Limit(s[1..], n - 1)
  {}

  lemma ClaimBatchOfSplit(t: Tables, live': map<Id, Job>, head: Id, rest: seq<Id>, worker: string, expires: int)
    requires head in t.live && head !in rest && forall id :: id in rest ==> id in t.live
    requires live' == ClaimAll(t.live, {head}, worker, expires)
    ensures var ids := [head] + rest;
            && ClaimAll(t.live, Elements(ids), worker, expires) == ClaimAll(live', Elements(rest), worker, expires)
            && ClaimsOf(t.live, ids, worker, expires)
               == ClaimsOf(t.live, [head], worker, expires) + ClaimsOf(live', rest, worker, expires)
  {
    var ids := [head] + rest;
    assert Elements(ids) == {head} + Elements(rest);
    ClaimAllTwice(t.live, {head}, Elements(rest), worker, expires);
    ClaimsOfUnaffected(t.live, live', rest, worker, expires);
    assert ids[0] == head && ids[1..] == rest;
    assert [head][1..] == [];
  }

  /** ClaimBatch(n) is n ClaimOnes at the same instant, in what it returns and in the table. */
  lemma {:induction false} BatchIsSingles(t: Tables, queue: string, worker: string, n: nat, now: int, expires: int)
    requires now <= expires
    ensures ClaimBatch(t, queue, worker, n, now, expires) == ClaimOnes(t, queue, worker, n, now, expires)
    decreases n
  {
    hide ClaimBatch;
    if n == 0 {
      ClaimNothing(t, queue, worker, n, now, expires);
    } else if Candidates(t.live, queue, now) == {} {
      ClaimNothing(t, queue, worker, n, now, expires);
      ClaimNothing(t, queue, worker, 1, now, expires);
      ClaimNothing(t, queue, worker, n - 1, now, expires);
      BatchIsSingles(t, queue, worker, n - 1, now, expires);
      var none: seq<Claim> := [];
      assert none + none == none;
    } else {
      ClaimBatchStep(t, queue, worker, n, now, expires);
      var (t', first) := ClaimBatch(t, queue, worker, 1, now, expires);
      BatchIsSingles(t', queue, worker, n - 1, now, expires);
    }
  }

  // AckBatch and Ack.

  /** Ack applied to each id in turn, counting the successes. */
  function Acks(t: Tables, ids: seq<Id>, worker: string, now: int): (Tables, nat)
    decreases |ids|
  {
    if ids == [] then (t, 0)
    else
      var (t', r) := Ack(t, ids[0], worker, now);
      var (t'', count) := Acks(t', ids[1..], worker, now);
      (t'', count + if r == Ok(true) then 1 else 0)
  }

  /** AckBatch is its Acks one by one, duplicate ids included: the same table, the same count. */
  lemma {:induction false} AckBatchIsAcks(t: Tables, ids: seq<Id>, worker: string, now: int)
    ensures AckBatch(t, ids, worker, now) == Acks(t, ids, worker, now)
    decreases |ids|
  {
    if ids == [] {
      assert Acked(t, ids, worker, now) == {};
      assert t.live - {} == t.live;
    } else {
      var id, rest := ids[0], ids[1..];
      var t' := Ack(t, id, worker, now).0;
      AckBatchIsAcks(t', rest, worker, now);
      AckedStep(t, ids, worker, now);
      var all, later := Acked(t, ids, worker, now), Acked(t', rest, worker, now);
      hide Acked, Acks, Holds;
      if Held(t, id, worker, now) {
        assert t.live - all == t'.live - later;
      }
    }
  }

  lemma AckedStep(t: Tables, ids: seq<Id>, worker: string, now: int)
    requires ids != []
    ensures var later := Acked(Ack(t, ids[0], worker, now).0, ids[1..], worker, now);
            if Held(t, ids[0], worker, now) then ids[0] !in later && Acked(t, ids, worker, now) == later + {ids[0]}
            else Acked(t, ids, worker, now) == later
  {
    hide Holds;
    assert ids == [ids[0]] + ids[1..];
  }

  // nextClaimAt.

  predicate SomethingClaimable(live: map<Id, Job>, queue: string, now: int) {
    exists id :: id in live && Claimable(live[id], queue, now)
  }

  /** With nothing claimable at `now` and no writes, nothing becomes claimable before the deadline
      that nextClaimAt returns; without a deadline nothing ever does. */
  lemma NextClaimAtIsSound(live: map<Id, Job>, queue: string, now: int, deadline: Option<int>, t: int)
    requires IsNextClaimAt(live, queue, now, deadline) && !SomethingClaimable(live, queue, now)
    requires now <= t && (deadline.Some? ==> t < deadline.value)
    ensures !SomethingClaimable(live, queue, t)
  {
    forall id | id in live ensures !Claimable(live[id], queue, t) {
      var job := live[id];
      assert !Claimable(job, queue, now);
      var lasting := job.queue == queue && (job.expiresAt.None? || job.expiresAt.value > now);
      assert lasting && job.state.Pending? && job.runAt > now ==> job.runAt in Deadlines(live, queue, now);
      assert lasting && job.state.Processing? && job.claimExpires.Some? && job.claimExpires.value >= now ==>
          job.claimExpires.value in Deadlines(live, queue, now);
    }
  }

  /** The job's next chance to be claimed, its TTL aside. */
  predicate Attains(job: Job, queue: string, deadline: int) {
    job.queue == queue && if job.state.Pending? then job.runAt == deadline else job.claimExpires == Some(deadline)
  }

  predicate Lasts(job: Job, now: int) {
    job.expiresAt.None? || job.expiresAt.value > now
  }

  /** A deadline is that of a job whose time to live is not over, and as far as that goes the job is
      claimable at it when pending, and from the next instant on when its claim has to lapse first. */
  lemma NextClaimAtIsKept(live: map<Id, Job>, queue: string, now: int, deadline: int)
    requires IsNextClaimAt(live, queue, now, Some(deadline))
    ensures now <= deadline
    ensures exists id :: id in live && Attains(live[id], queue, deadline) && Lasts(live[id], now)
    ensures forall id :: id in live && Attains(live[id], queue, deadline) ==>
              if live[id].state.Pending? then Claimable(live[id], queue, deadline) <==> Lasts(live[id], deadline)
              else
                && !Claimable(live[id], queue, deadline)
                && (Claimable(live[id], queue, deadline + 1) <==> Lasts(live[id], deadline + 1))
  {
    assert deadline in Deadlines(live, queue, now);
    var id :| id in live && Attains(live[id], queue, deadline) && Lasts(live[id], now);
  }
}
