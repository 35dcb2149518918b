/** lock.go and the leader heartbeat of scheduler.go: named locks with an expiry. Times are Unix
    seconds, which the table keeps, and compares, as text. */
module Locks {
  import Calendar
  import opened EpochText

  datatype LockRow = LockRow(owner: string, expires: int)

  type LockTable = map<string, LockRow>

  /** A TTL below one second means a minute. */
  function TtlSeconds(ttl: int): (seconds: int)
    ensures seconds >= 1
    ensures ttl < 1_000_000_000 ==> seconds == 60
    ensures ttl >= 1_000_000_000 ==> seconds * 1_000_000_000 <= ttl < (seconds + 1) * 1_000_000_000
  {
    if ttl < Calendar.NANOS_PER_SECOND then 60 else ttl / Calendar.NANOS_PER_SECOND
  }

  predicate Lapsed(t: LockTable, name: string, now: int) {
    name in t && Before(t[name].expires, now)
  }

  /** The lock is there for the taking, or is the caller's already. */
  predicate CanTake(t: LockTable, name: string, owner: string, now: int) {
    name !in t || Lapsed(t, name, now) || t[name].owner == owner
  }

  /** A live lock of the same owner is granted again and keeps its expiry. */
  function TryLock(t: LockTable, name: string, owner: string, ttl: int, now: int): (LockTable, bool) {
    if !CanTake(t, name, owner, now) then (t, false)
    else if name in t && !Lapsed(t, name, now) then (t, true)
    else (t[name := LockRow(owner, now + ttl)], true)
  }

  function Release(t: LockTable, name: string, owner: string): LockTable {
    if name in t && t[name].owner == owner then t - {name} else t
  }

  /** The heartbeat asks for no owner. */
  function Heartbeat(t: LockTable, name: string, ttl: int, now: int): LockTable {
    if name in t then t[name := t[name].(expires := now + ttl)] else t
  }

  class LockDatabase {
    var rows: LockTable

    constructor ()
      ensures rows == map[]
    {
      rows := map[];
    }

    /** tryLockOnce: delete, insert or ignore, look who owns the row, roll back if it is not the
        caller. */
    method TryLockOnce(name: string, owner: string, ttl: int, now: int) returns (granted: bool)
      modifies this
      ensures (rows, granted) == TryLock(old(rows), name, owner, TtlSeconds(ttl), now)
    {
      var ttlSec := if ttl < 0 then -(-ttl / Calendar.NANOS_PER_SECOND) else ttl / Calendar.NANOS_PER_SECOND;
      if ttlSec <= 0 { ttlSec := 60; }
      var before := rows;
      if name in rows && Before(rows[name].expires, now) { rows := rows - {name}; }
      if name !in rows {
        rows := rows[name := LockRow(owner, now + ttlSec)];
        assert rows == before[name := LockRow(owner, now + ttlSec)];
      }
      granted := rows[name].owner == owner;
      if !granted { rows := before; }
    }

    method ReleaseLock(name: string, owner: string)
      modifies this
      ensures rows == Release(old(rows), name, owner)
    {
      if name in rows && rows[name].owner == owner { rows := rows - {name}; }
    }

    method Beat(name: string, ttl: int, now: int)
      modifies this
      ensures rows == Heartbeat(old(rows), name, ttl, now)
    {
      if name in rows { rows := rows[name := rows[name].(expires := now + ttl)]; }
    }
  }

  // Runs.

  datatype Op =
    | LockOp(name: string, owner: string, ttl: int)
    | ReleaseOp(name: string, owner: string)
    | HeartbeatOp(name: string, ttl: int)

  datatype Event = Event(now: int, op: Op)

  datatype World = World(rows: LockTable, clock: int)

  function Next(w: World, e: Event): World {
    match e.op
    case LockOp(name, owner, ttl) => World(TryLock(w.rows, name, owner, ttl, e.now).0, e.now)
    case ReleaseOp(name, owner) => World(Release(w.rows, name, owner), e.now)
    case HeartbeatOp(name, ttl) => World(Heartbeat(w.rows, name, ttl, e.now), e.now)
  }

  function Run(w: World, es: seq<Event>): World {
    if es == [] then w else Next(Run(w, es[..|es| - 1]), es[|es| - 1])
  }

  /** The clock does not run backwards. */
  predicate Monotone(w: World, es: seq<Event>) {
    es != [] ==>
      && Monotone(w, es[..|es| - 1])
      && Run(w, es[..|es| - 1]).clock <= es[|es| - 1].now
  }

  predicate Owns(w: World, name: string, owner: string) {
    name in w.rows && w.rows[name].owner == owner
  }

  /** The only two ways in which a lock's row stops being its owner's. */
  predicate LosesLock(w: World, e: Event, name: string, owner: string) {
    && Owns(w, name, owner)
    && ( || e.op == ReleaseOp(name, owner)
         || (e.op.LockOp? && e.op.name == name && e.op.owner != owner && Lapsed(w.rows, name, e.now)))
  }

  // Single steps.

  /** Exactly when an attempt succeeds, and what it leaves: a fresh lease, unless the owner's own
      lease was still running. A refused attempt changes nothing, and no other name is touched. */
  lemma LockOutcome(t: LockTable, name: string, owner: string, ttl: int, now: int)
    ensures var (t', granted) := TryLock(t, name, owner, ttl, now);
            && (granted <==> !(name in t && t[name].owner != owner && !Lapsed(t, name, now)))
            && (!granted ==> t' == t)
            && (granted ==> name in t' && t'[name].owner == owner)
            && (granted ==> t'[name].expires == if name in t && !Lapsed(t, name, now) then t[name].expires else now + ttl)
            && (forall other :: other != name ==> (other in t' <==> other in t) && (other in t ==> t'[other] == t[other]))
  {}

  /** An owner's row goes to nobody, or to another owner, exactly by its release or by another's
      attempt after its expiry. */
  lemma OwnerChanges(w: World, e: Event, name: string, owner: string)
    requires Owns(w, name, owner)
    ensures !Owns(Next(w, e), name, owner) <==> LosesLock(w, e, name, owner)
  {}

  /** A release by the owner leaves no row, so that whoever comes next has a full lease; a release by
      anyone else changes nothing, and no other name is touched. */
  lemma ReleaseFrees(t: LockTable, name: string, owner: string)
    ensures var t' := Release(t, name, owner);
            && (name in t && t[name].owner == owner ==>
                  && name !in t'
                  && forall other, ttl, now ::
                       TryLock(t', name, other, ttl, now) == (t'[name := LockRow(other, now + ttl)], true))
            && (name !in t || t[name].owner != owner ==> t' == t)
            && (forall other :: other != name ==> (other in t' <==> other in t) && (other in t ==> t'[other] == t[other]))
  {}

  /** Nobody asks for the lock. */
  predicate Unasked(es: seq<Event>, name: string) {
    forall i :: 0 <= i < |es| ==> !(es[i].op.LockOp? && es[i].op.name == name)
  }

  /** In every run a lock that its owner has released stays free until somebody asks for it, stale
      heartbeats and releases notwithstanding, and the first to ask has a full lease. */
  lemma {:induction false} ReleasedStaysFree(w: World, now: int, es: seq<Event>, name: string, owner: string, asked: Event)
    requires Owns(w, name, owner) && Unasked(es, name) && asked.op.LockOp? && asked.op.name == name
    ensures var end := Run(Next(w, Event(now, ReleaseOp(name, owner))), es);
            && name !in end.rows
            && Next(end, asked).rows == end.rows[name := LockRow(asked.op.owner, asked.now + asked.op.ttl)]
  {
    hide Lapsed;
    if es == [] {
    } else {
      ReleasedStaysFree(w, now, es[..|es| - 1], name, owner, asked);
    }
  }

  /** Mutual exclusion over runs: whatever happens in between, a row that names an owner and later
      does not was first given up by a release of that owner, or taken by another after the expiry
      it had at that moment, heartbeats included. A release by anyone else never removes it. */
  lemma FirstLoss(w: World, es: seq<Event>, name: string, owner: string) returns (i: nat)
    requires Owns(w, name, owner) && !Owns(Run(w, es), name, owner)
    ensures i < |es| && LosesLock(Run(w, es[..i]), es[i], name, owner)
    ensures forall j :: 0 <= j <= i ==> Owns(Run(w, es[..j]), name, owner)
  {
    hide Next, LosesLock, Owns, Run;
    i := 0;
    assert es[..0] == [];
    assert Run(w, []) == w by { NoSteps(w); }
    while i < |es| && Owns(Run(w, es[..i + 1]), name, owner)
      invariant 0 <= i <= |es|
      invariant forall j :: 0 <= j <= i ==> Owns(Run(w, es[..j]), name, owner)
    {
      i := i + 1;
    }
    assert es[..|es|] == es;
    LastStep(w, es, i);
    OwnerChanges(Run(w, es[..i]), es[i], name, owner);
  }

  lemma NoSteps(w: World)
    ensures Run(w, []) == w
  {}

  lemma LastStep(w: World, es: seq<Event>, i: nat)
    requires i < |es|
    ensures Run(w, es[..i + 1]) == Next(Run(w, es[..i]), es[i])
  {
    assert es[..i + 1][..i] == es[..i];
  }

  // Leases.

  /** The name's lease runs for at most this long from now. */
  predicate Leased(limit: int, w: World, name: string) {
    name in w.rows ==> w.rows[name].expires <= w.clock + limit
  }

  /** Who locks the name asks for at most the limit, and whoever heartbeats it for just that. A name
      without heartbeats meets every limit that is large enough. */
  predicate TtlsMeet(limit: int, es: seq<Event>, name: string) {
    forall i :: 0 <= i < |es| ==>
      && (es[i].op.LockOp? && es[i].op.name == name ==> es[i].op.ttl <= limit)
      && (es[i].op.HeartbeatOp? && es[i].op.name == name ==> es[i].op.ttl == limit)
  }

  /** At every step a running lease of the name reads as one: the text of its expiry holds. */
  predicate TextKeeps(w: World, es: seq<Event>, name: string) {
    forall i | 0 <= i < |es| ::
      var rows := Run(w, es[..i]).rows;
      && es[i].now >= 0
      && (name in rows && es[i].now <= rows[name].expires ==> TextHolds(es[i].now, rows[name].expires))
  }

  lemma {:induction false} RunKeepsLeased(limit: int, w: World, es: seq<Event>, name: string)
    requires limit >= 0 && Leased(limit, w, name) && Monotone(w, es) && TtlsMeet(limit, es, name)
    ensures Leased(limit, Run(w, es), name)
  {
    if es == [] {
    } else {
      RunKeepsLeased(limit, w, es[..|es| - 1], name);
      hide Run, Monotone, Before;
    }
  }

  /** With TTLs that meet, nothing shortens a running lease, stale heartbeats included. */
  lemma LeaseKept(limit: int, w: World, e: Event, name: string, owner: string)
    requires limit >= 0 && Leased(limit, w, name) && w.clock <= e.now && TtlsMeet(limit, [e], name)
    requires Owns(w, name, owner) && 0 <= e.now <= w.rows[name].expires && e.op != ReleaseOp(name, owner)
    requires TextHolds(e.now, w.rows[name].expires)
    ensures Owns(Next(w, e), name, owner) && Next(w, e).rows[name].expires >= w.rows[name].expires
    ensures e.op.LockOp? && e.op.name == name && e.op.owner != owner ==> !TryLock(w.rows, name, e.op.owner, e.op.ttl, e.now).1
  {
    assert [e][0] == e;
    TextHoldsExactly(e.now, w.rows[name].expires);
    assert !Before(w.rows[name].expires, e.now);
    hide Before, TextHolds;
  }

  /** And the text of its expiry is what that takes: a lease withstands every attempt of another up to
      its expiry if and only if the text holds. */
  lemma LeaseWithstandsWhen(t: LockTable, name: string, other: string, ttl: int, now: int)
    requires name in t && t[name].owner != other && 0 <= now <= t[name].expires
    ensures (forall n :: now <= n <= t[name].expires ==> !TryLock(t, name, other, ttl, n).1)
            <==> TextHolds(now, t[name].expires)
  {
    TextHoldsExactly(now, t[name].expires);
    hide Before, TextHolds;
    forall n ensures TryLock(t, name, other, ttl, n).1 <==> Before(t[name].expires, n) {
      LockOutcome(t, name, other, ttl, n);
    }
  }

  /** It holds at every step if no second gains a digit within the limit. */
  lemma {:induction false} SteadyDigitsAreEnough(limit: int, w: World, es: seq<Event>, name: string)
    requires limit >= 0 && Leased(limit, w, name) && Monotone(w, es) && TtlsMeet(limit, es, name)
    requires forall i :: 0 <= i < |es| ==> SameDigits(es[i].now, es[i].now + limit)
    ensures TextKeeps(w, es, name)
  {
    hide SameDigits, Next, Leased;
    if es == [] {
    } else {
      var init, e := es[..|es| - 1], es[|es| - 1];
      SteadyDigitsAreEnough(limit, w, init, name);
      RunKeepsLeased(limit, w, init, name);
      LastTextHolds(limit, Run(w, init), e, name);
      forall i | 0 <= i < |init| ensures es[..i] == init[..i] && es[i] == init[i] {}
      hide Run;
    }
  }

  lemma LastTextHolds(limit: int, w: World, e: Event, name: string)
    requires Leased(limit, w, name) && w.clock <= e.now && SameDigits(e.now, e.now + limit)
    ensures e.now >= 0
    ensures name in w.rows && e.now <= w.rows[name].expires ==> TextHolds(e.now, w.rows[name].expires)
  {
    if name in w.rows && e.now <= w.rows[name].expires {
      SameDigitsBetween(e.now, w.rows[name].expires, e.now + limit);
    }
  }

  /** Nothing but time happens to a lease: no release by its owner, and no second after its expiry. */
  predicate Undisturbed(es: seq<Event>, name: string, owner: string, expires: int) {
    forall i :: 0 <= i < |es| ==> es[i].now <= expires && es[i].op != ReleaseOp(name, owner)
  }

  /** A lease is worth its time: until its expiry, and unless its owner releases it, the owner
      keeps the row, nothing shortens the lease, and every attempt of another is refused. */
  lemma {:induction false} LeaseHolds(limit: int, w: World, es: seq<Event>, name: string, owner: string)
    requires limit >= 0 && Leased(limit, w, name) && Monotone(w, es) && TtlsMeet(limit, es, name) && TextKeeps(w, es, name)
    requires Owns(w, name, owner) && Undisturbed(es, name, owner, w.rows[name].expires)
    ensures Owns(Run(w, es), name, owner) && Run(w, es).rows[name].expires >= w.rows[name].expires
    ensures forall i :: 0 <= i < |es| && es[i].op.LockOp? && es[i].op.name == name && es[i].op.owner != owner ==>
              !TryLock(Run(w, es[..i]).rows, name, es[i].op.owner, es[i].op.ttl, es[i].now).1
  {
    hide Next, TryLock, Leased, TextHolds;
    if es == [] {
    } else {
      var init, e := es[..|es| - 1], es[|es| - 1];
      forall i | 0 <= i < |init| ensures es[..i] == init[..i] && es[i] == init[i] {}
      LeaseHolds(limit, w, init, name, owner);
      RunKeepsLeased(limit, w, init, name);
      LeaseKept(limit, Run(w, init), e, name, owner);
      hide Run;
    }
  }

  // The TTLs that are safe together.

  const START := World(map[], 0)

  /** Locks on the name ask for at most `max`; heartbeats of it always for `beat`. */
  predicate WithinTtls(es: seq<Event>, name: string, max: int, beat: int) {
    forall i :: 0 <= i < |es| ==>
      && (es[i].op.LockOp? && es[i].op.name == name ==> 1 <= es[i].op.ttl <= max)
      && (es[i].op.HeartbeatOp? && es[i].op.name == name ==> es[i].op.ttl == beat)
  }

  /** In every run with such TTLs every lease holds: whoever owns the row after a first part of the
      run owns it after a second part that does not outlast the lease. */
  ghost predicate SafeTtls(max: int, beat: int) {
    forall a, b, name, owner
      | Monotone(START, a + b) && WithinTtls(a + b, name, max, beat) && TextKeeps(Run(START, a), b, name)
        && Owns(Run(START, a), name, owner) && Undisturbed(b, name, owner, Run(START, a).rows[name].expires) ::
      Owns(Run(START, a + b), name, owner)
  }

  lemma {:induction false} RunInTwo(w: World, a: seq<Event>, b: seq<Event>)
    ensures Run(w, a + b) == Run(Run(w, a), b)
    ensures Monotone(w, a + b) ==> Monotone(w, a) && Monotone(Run(w, a), b)
  {
    hide Next;
    if b == [] {
      assert a + b == a;
    } else {
      assert (a + b)[..|a + b| - 1] == a + b[..|b| - 1];
      RunInTwo(w, a, b[..|b| - 1]);
    }
  }

  lemma PartsKeepTtls(max: int, beat: int, a: seq<Event>, b: seq<Event>, name: string)
    requires max <= beat && WithinTtls(a + b, name, max, beat)
    ensures TtlsMeet(beat, a, name) && TtlsMeet(beat, b, name)
  {
    assert forall i :: 0 <= i < |a| ==> a[i] == (a + b)[i];
    assert forall i :: 0 <= i < |b| ==> b[i] == (a + b)[|a| + i];
  }

  lemma ShortTtlsAreSafe(max: int, beat: int)
    requires 0 <= max <= beat
    ensures SafeTtls(max, beat)
  {
    assert forall name :: Leased(beat, START, name);
    hide Run, Monotone, Owns, Leased, TextKeeps, WithinTtls, TtlsMeet, Undisturbed, START;
    forall a, b, name, owner
      | Monotone(START, a + b) && WithinTtls(a + b, name, max, beat) && TextKeeps(Run(START, a), b, name)
        && Owns(Run(START, a), name, owner) && name in Run(START, a).rows
        && Undisturbed(b, name, owner, Run(START, a).rows[name].expires)
      ensures Owns(Run(START, a + b), name, owner)
    {
      RunInTwo(START, a, b);
      PartsKeepTtls(max, beat, a, b, name);
      RunKeepsLeased(beat, START, a, name);
      LeaseHolds(beat, Run(START, a), b, name, owner);
    }
    OwnedAreThere();
  }

  lemma OwnedAreThere()
    ensures forall w, name, owner :: Owns(w, name, owner) ==> name in w.rows
  {}

  /** The scheduler's heartbeat goes wrong with a lock that asks for more: "a" held the lock with the
      heartbeat's TTL and lost it; "b" has a lease for longer; the late heartbeat of "a" cuts it
      short, and "c" takes the lock while the lease of "b" should run. */
  function LateHeartbeat(start: int, max: int, beat: int): (seq<Event>, seq<Event>) {
    ([Event(start, LockOp("l", "a", beat)), Event(start + beat + 1, LockOp("l", "b", max))],
     [Event(start + beat + 1, HeartbeatOp("l", beat)), Event(start + 2 * beat + 2, LockOp("l", "c", max))])
  }

  lemma LateHeartbeatSteps(start: int, max: int, beat: int)
    requires 1 <= beat < max
    requires Before(start + beat, start + beat + 1) && Before(start + 2 * beat + 1, start + 2 * beat + 2)
    ensures var (a, b) := LateHeartbeat(start, max, beat);
            && Next(Next(START, a[0]), a[1]).rows == map["l" := LockRow("b", start + beat + 1 + max)]
            && Next(Next(Next(Next(START, a[0]), a[1]), b[0]), b[1]).rows == map["l" := LockRow("c", start + 2 * beat + 2 + max)]
  {
    hide Before;
    var (a, b) := LateHeartbeat(start, max, beat);
    var w1 := World(map["l" := LockRow("a", start + beat)], start);
    var w2 := World(map["l" := LockRow("b", start + beat + 1 + max)], start + beat + 1);
    var w3 := World(map["l" := LockRow("b", start + 2 * beat + 1)], start + beat + 1);
    assert Next(START, a[0]) == w1;
    assert Next(w1, a[1]) == w2;
    assert Next(w2, b[0]) == w3;
    assert Next(w3, b[1]).rows == map["l" := LockRow("c", start + 2 * beat + 2 + max)];
  }

  lemma LateHeartbeatCutsLease(start: int, max: int, beat: int)
    requires 1 <= beat < max && SameDigits(start, start + 2 * beat + 2 + max)
    ensures var (a, b) := LateHeartbeat(start, max, beat);
            && Monotone(START, a + b)
            && Run(START, a).rows == map["l" := LockRow("b", start + beat + 1 + max)]
            && Run(START, a + b).rows == map["l" := LockRow("c", start + 2 * beat + 2 + max)]
  {
    var (a, b) := LateHeartbeat(start, max, beat);
    var end := start + 2 * beat + 2 + max;
    InEra(start, start + beat, start + beat + 1, end);
    InEra(start, start + 2 * beat + 1, start + 2 * beat + 2, end);
    assert start >= 0;
    hide Before, SameDigits, Next, Run, Monotone;
    LateHeartbeatSteps(start, max, beat);
    assert a == [a[0], a[1]] && a + b == [a[0], a[1], b[0], b[1]];
    RunOfFour(START, a[0], a[1], b[0], b[1]);
  }

  lemma InEra(start: int, x: int, y: int, end: int)
    requires SameDigits(start, end) && start <= x < y <= end
    ensures SameDigits(x, y) && Before(x, y)
  {
    SameDigitsBetween(start, x, end);
    SameDigitsBetween(start, y, end);
    BeforeIsLess(x, y);
  }

  lemma RunOneMore(w: World, es: seq<Event>, e: Event)
    ensures Run(w, es + [e]) == Next(Run(w, es), e)
    ensures Monotone(w, es) && Run(w, es).clock <= e.now ==> Monotone(w, es + [e])
    ensures Run(w, es + [e]).clock == e.now
  {
    assert (es + [e])[..|es|] == es;
  }

  lemma RunOfFour(w: World, e1: Event, e2: Event, e3: Event, e4: Event)
    ensures Run(w, [e1, e2]) == Next(Next(w, e1), e2)
    ensures Run(w, [e1, e2, e3, e4]) == Next(Next(Next(Next(w, e1), e2), e3), e4)
    ensures w.clock <= e1.now <= e2.now <= e3.now <= e4.now ==> Monotone(w, [e1, e2, e3, e4])
  {
    assert Run(w, []) == w && Monotone(w, []);
    hide Run, Monotone, Next;
    RunOneMore(w, [], e1);
    RunOneMore(w, [e1], e2);
    RunOneMore(w, [e1, e2], e3);
    RunOneMore(w, [e1, e2, e3], e4);
    assert [] + [e1] == [e1] && [e1] + [e2] == [e1, e2] && [e1, e2] + [e3] == [e1, e2, e3];
    assert [e1, e2, e3] + [e4] == [e1, e2, e3, e4];
  }

  /** The exact condition: leases hold in every run if and only if no lock asks for more than the
      heartbeats of its name do. The scheduler's heartbeats ask for 60 seconds. */
  lemma TtlsMustMeet(max: int, beat: int)
    requires max >= 1 && beat >= 1
    ensures SafeTtls(max, beat) <==> max <= beat
  {
    hide SafeTtls, Run, Monotone, Next, SameDigits;
    if max <= beat {
      ShortTtlsAreSafe(max, beat);
    } else {
      var start := LongEra(2 * beat + 2 + max);
      UnsafeRun(start, max, beat);
    }
  }

  lemma LateHeartbeatIsWithin(start: int, max: int, beat: int)
    requires 1 <= beat < max
    ensures var (a, b) := LateHeartbeat(start, max, beat); WithinTtls(a + b, "l", max, beat)
  {
    var (a, b) := LateHeartbeat(start, max, beat);
    assert a + b == [a[0], a[1], b[0], b[1]];
  }

  lemma LateHeartbeatText(start: int, max: int, beat: int)
    requires 1 <= beat < max && SameDigits(start, start + 2 * beat + 2 + max)
    ensures var (a, b) := LateHeartbeat(start, max, beat); TextKeeps(Run(START, a), b, "l")
  {
    var (a, b) := LateHeartbeat(start, max, beat);
    InEra(start, start + beat + 1, start + beat + 1 + max, start + 2 * beat + 2 + max);
    assert start >= 0;
    LateHeartbeatCutsLease(start, max, beat);
    hide SameDigits, Before, Monotone;
    TextOfTwo(Run(START, a), b[0], b[1], "l");
    assert b == [b[0], b[1]];
  }

  /** A heartbeat that ends the lease before the next event. */
  lemma TextOfTwo(w: World, e1: Event, e2: Event, name: string)
    requires name in w.rows && e1.now >= 0 && e2.now >= 0 && TextHolds(e1.now, w.rows[name].expires)
    requires e1.op.HeartbeatOp? && e1.op.name == name && e1.now + e1.op.ttl < e2.now
    ensures TextKeeps(w, [e1, e2], name)
  {
    assert [e1, e2][..0] == [] && [e1, e2][..1] == [e1] && Run(w, []) == w;
    RunOneMore(w, [], e1);
    assert [] + [e1] == [e1];
    assert Next(w, e1).rows[name].expires < e2.now;
    hide TextHolds, Next, Run;
  }

  lemma UnsafeRun(start: int, max: int, beat: int)
    requires 1 <= beat < max && SameDigits(start, start + 2 * beat + 2 + max)
    ensures !SafeTtls(max, beat)
  {
    var (a, b) := LateHeartbeat(start, max, beat);
    LateHeartbeatCutsLease(start, max, beat);
    LateHeartbeatText(start, max, beat);
    LateHeartbeatIsWithin(start, max, beat);
    hide Run, Monotone, Next, SameDigits, WithinTtls, TextKeeps;
    assert Owns(Run(START, a), "l", "b") && Undisturbed(b, "l", "b", Run(START, a).rows["l"].expires);
    assert !Owns(Run(START, a + b), "l", "b");
  }

  /** What the scheduler locks and heartbeats its leader lock for (scheduler.go, Run). */
  const LEADER_TTL := 60

  lemma LeaderTtlIsLongest(max: int)
    requires max >= 1
    ensures SafeTtls(max, LEADER_TTL) <==> max <= LEADER_TTL
  {
    TtlsMustMeet(max, LEADER_TTL);
  }

  /** Nor does a lease hold that ends in a second with more digits: of 285 years, it lapses at once. */
  lemma LongLeaseLapsesAtOnce()
    ensures TtlSeconds(9_000_000_000 * Calendar.NANOS_PER_SECOND) == 9_000_000_000
    ensures var (t, granted) := TryLock(map[], "l", "a", 9_000_000_000, 1_760_000_000);
            granted && Lapsed(t, "l", 1_760_000_000)
  {
    FewerDigitsSortLater();
    hide Before;
  }
}
