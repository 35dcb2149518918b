/** notify.go: the notification table, pruning, and listeners. Creation times are instants in
    milliseconds, whose text form orders the same way (Timestamps.MillisTextOrder). */
module Notifications {
  import opened Base

  datatype Row = Row(channel: string, payload: string, createdAt: int)

  type Rows = map<int, Row>

  function OnChannel(rows: Rows, channel: string): set<int> {
    set id | id in rows && rows[id].channel == channel
  }

  function AboveId(ids: set<int>, id: int): set<int> {
    set i | i in ids && i > id
  }

  lemma {:induction false} HasMax(ids: set<int>) returns (m: int)
    requires ids != {}
    ensures m in ids && forall i :: i in ids ==> i <= m
    decreases ids
  {
    var any := AMember(ids);
    m := any;
    if ids != {any} {
      assert ids == (ids - {any}) + {any};
      var rest := HasMax(ids - {any});
      if rest > any { m := rest; }
      assert forall i :: i in ids ==> i == any || i in ids - {any};
    }
  }

  /** COALESCE(MAX(id), 0). */
  ghost predicate IsMaxOrZero(ids: set<int>, m: int) {
    if ids == {} then m == 0 else m in ids && forall i :: i in ids ==> i <= m
  }

  /** The lowest of the ids, if there is one. */
  ghost predicate IsLowest(ids: set<int>, r: Option<int>) {
    match r
    case None => ids == {}
    case Some(m) => m in ids && forall i :: i in ids ==> m <= i
  }

  // Pruning.

  function ByAge(rows: Rows, cutoff: Option<int>): Rows {
    map id | id in rows && (cutoff.None? || rows[id].createdAt >= cutoff.value) :: rows[id]
  }

  /** The ids with fewer than n above them. */
  function Newest(ids: set<int>, n: nat): set<int> {
    set id | id in ids && |AboveId(ids, id)| < n
  }

  function ByCount(rows: Rows, maxKeep: int): Rows {
    if maxKeep > 0 then map id | id in rows && id in Newest(rows.Keys, maxKeep) :: rows[id] else rows
  }

  function Pruned(rows: Rows, now: int, olderThan: int, maxKeep: int): Rows {
    ByCount(ByAge(rows, if olderThan > 0 then Some(now - olderThan) else None), maxKeep)
  }

  lemma SubsetSize<T>(a: set<T>, b: set<T>)
    requires a <= b
    ensures |a| <= |b|
  {
    assert b == a + (b - a);
  }

  /** n of the ids, or all if there are fewer, above all others. */
  ghost predicate IsTop(ids: set<int>, kept: set<int>, n: nat) {
    && kept <= ids && (forall k, d :: k in kept && d in ids && d !in kept ==> d < k)
    && (|kept| == n || (kept == ids && |kept| < n))
  }

  lemma IsTopUnique(ids: set<int>, kept: set<int>, n: nat)
    requires IsTop(ids, kept, n)
    ensures Newest(ids, n) == kept
  {
    forall id | id in ids ensures id in Newest(ids, n) <==> id in kept {
      if id in kept {
        SubsetSize(AboveId(ids, id) + {id}, kept);
      } else {
        SubsetSize(kept, AboveId(ids, id));
      }
    }
  }

  lemma {:induction false} TopExists(ids: set<int>, n: nat) returns (kept: set<int>)
    ensures IsTop(ids, kept, n)
    decreases n
  {
    kept := {};
    if ids != {} && n > 0 {
      var m := HasMax(ids);
      var rest := TopExists(ids - {m}, n - 1);
      kept := {m} + rest;
      assert ids - {m} == rest ==> kept == ids;
    }
  }

  /** The newest are as many as there are, up to n, and above all others. */
  lemma NewestIsTop(ids: set<int>, n: nat)
    ensures IsTop(ids, Newest(ids, n), n)
  {
    var kept := TopExists(ids, n);
    IsTopUnique(ids, kept, n);
  }

  /** A row survives a prune, unchanged, exactly when it is recent enough and fewer than maxKeep recent
      rows have higher ids; a limit that is not positive does not count. */
  lemma PruneKeeps(rows: Rows, now: int, olderThan: int, maxKeep: int, id: int)
    ensures var recent := set i | i in rows && (olderThan > 0 ==> rows[i].createdAt >= now - olderThan);
            var rows' := Pruned(rows, now, olderThan, maxKeep);
            && (id in rows' <==> id in recent && (maxKeep > 0 ==> |set i | i in recent && i > id| < maxKeep))
            && (id in rows' ==> rows'[id] == rows[id])
            && (maxKeep > 0 ==> |rows'| <= maxKeep)
  {
    var recent := set i | i in rows && (olderThan > 0 ==> rows[i].createdAt >= now - olderThan);
    var kept := ByAge(rows, if olderThan > 0 then Some(now - olderThan) else None);
    assert kept.Keys == recent;
    assert AboveId(recent, id) == set i | i in recent && i > id;
    if maxKeep > 0 {
      NewestIsTop(recent, maxKeep);
      assert ByCount(kept, maxKeep).Keys == Newest(recent, maxKeep);
      assert |ByCount(kept, maxKeep)| == |ByCount(kept, maxKeep).Keys|;
    }
  }

  class NotificationTable {
    var rows: Rows
    var lastId: int

    ghost predicate Valid()
      reads this
    {
      lastId >= 0 && forall id :: id in rows ==> 0 < id <= lastId
    }

    constructor ()
      ensures Valid() && rows == map[]
    {
      rows, lastId := map[], 0;
    }

    /** AUTOINCREMENT: an id is never reused, not even after its row was pruned. */
    method Notify(channel: string, payload: string, now: int) returns (id: int)
      requires Valid()
      modifies this
      ensures Valid() && id == lastId == old(lastId) + 1
      ensures rows == old(rows)[id := Row(channel, payload, now)]
    {
      lastId := lastId + 1;
      id := lastId;
      rows := rows[id := Row(channel, payload, now)];
    }

    method MaxNotificationId(channel: string) returns (m: int)
      requires Valid()
      ensures IsMaxOrZero(OnChannel(rows, channel), m)
    {
      m := 0;
      var todo := rows.Keys;
      while todo != {}
        invariant todo <= rows.Keys
        invariant IsMaxOrZero(OnChannel(rows, channel) - todo, m)
        decreases todo
      {
        var id := Choose(todo);
        if rows[id].channel == channel {
          assert OnChannel(rows, channel) - (todo - {id}) == OnChannel(rows, channel) - todo + {id};
          if id > m { m := id; }
        } else {
          assert OnChannel(rows, channel) - (todo - {id}) == OnChannel(rows, channel) - todo;
        }
        todo := todo - {id};
      }
      assert OnChannel(rows, channel) - todo == OnChannel(rows, channel);
    }

    /** The first row of the channel above an id. */
    method Poll(channel: string, after: int) returns (next: Option<int>)
      requires Valid()
      ensures IsLowest(AboveId(OnChannel(rows, channel), after), next)
    {
      next := None;
      ghost var wanted := AboveId(OnChannel(rows, channel), after);
      var todo := rows.Keys;
      while todo != {}
        invariant todo <= rows.Keys
        invariant IsLowest(wanted - todo, next)
        decreases todo
      {
        var id := Choose(todo);
        if rows[id].channel == channel && id > after {
          assert wanted - (todo - {id}) == wanted - todo + {id};
          if next.None? || id < next.value { next := Some(id); }
        } else {
          assert wanted - (todo - {id}) == wanted - todo;
        }
        todo := todo - {id};
      }
      assert wanted - todo == wanted;
    }

    method MaxOf(ids: set<int>) returns (m: int)
      requires ids != {}
      ensures m in ids && forall i :: i in ids ==> i <= m
    {
      m := Choose(ids);
      var todo := ids;
      while todo != {}
        invariant todo <= ids && m in ids && forall i :: i in ids && i !in todo ==> i <= m
        decreases todo
      {
        var i := Choose(todo);
        if i > m { m := i; }
        todo := todo - {i};
      }
    }

    /** The subquery ORDER BY id DESC LIMIT n. */
    method SelectNewest(n: nat) returns (kept: set<int>)
      ensures kept == Newest(rows.Keys, n)
    {
      kept := {};
      var rest := rows.Keys;
      while rest != {} && |kept| < n
        invariant kept + rest == rows.Keys && kept !! rest && |kept| <= n
        invariant forall k, r :: k in kept && r in rest ==> r < k
        decreases rest
      {
        var m := MaxOf(rest);
        kept, rest := kept + {m}, rest - {m};
      }
      assert rows.Keys - kept == rest;
      IsTopUnique(rows.Keys, kept, n);
    }

    /** PruneNotifications. */
    method Prune(now: int, olderThan: int, maxKeep: int)
      requires Valid()
      modifies this`rows
      ensures Valid() && rows == Pruned(old(rows), now, olderThan, maxKeep)
    {
      if olderThan > 0 {
        var cutoff := now - olderThan;
        rows := map id | id in rows && rows[id].createdAt >= cutoff :: rows[id];
      }
      assert rows == ByAge(old(rows), if olderThan > 0 then Some(now - olderThan) else None);
      if maxKeep > 0 {
        var kept := SelectNewest(maxKeep);
        rows := map id | id in rows && id in kept :: rows[id];
      }
    }
  }

  class Listener {
    const channel: string
    var lastId: int
    var closed: bool

    /** Listen: what is already there is not replayed. */
    constructor (table: NotificationTable, channel: string)
      requires table.Valid()
      ensures this.channel == channel && !closed && IsMaxOrZero(OnChannel(table.rows, channel), lastId)
    {
      this.channel := channel;
      closed := false;
      var m := table.MaxNotificationId(channel);
      lastId := m;
    }

    /** One turn of Next: Err when closed, None when it would wait. */
    method TryNext(table: NotificationTable) returns (r: Result<Option<(int, Row)>, string>)
      requires table.Valid()
      modifies this`lastId
      ensures r.Err? <==> closed
      ensures r.Err? ==> lastId == old(lastId)
      ensures r.Ok? ==>
                match r.value
                case None => IsLowest(AboveId(OnChannel(table.rows, channel), old(lastId)), None) && lastId == old(lastId)
                case Some(n) =>
                  && IsLowest(AboveId(OnChannel(table.rows, channel), old(lastId)), Some(n.0))
                  && lastId == n.0 && n.0 in table.rows && n.1 == table.rows[n.0]
    {
      if closed { return Err("closed"); }
      var next := table.Poll(channel, lastId);
      if next.None? { return Ok(None); }
      lastId := next.value;
      r := Ok(Some((lastId, table.rows[lastId])));
    }

    method Close()
      modifies this`closed
      ensures closed
    {
      closed := true;
    }
  }
}
