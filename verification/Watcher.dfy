/** watcher.go: the subscriptions of the update watcher and its fan-out. */
module Watcher {
  /** A subscription's channel has capacity 1, so it holds a token or it does not. */
  type Channels = map<nat, bool>

  class UpdateWatcher {
    var nextId: nat
    var subs: Channels
    var lastVersion: int

    ghost predicate Valid()
      reads this
    {
      forall id :: id in subs ==> id < nextId
    }

    constructor (version: int)
      ensures Valid() && subs == map[] && lastVersion == version
    {
      nextId, subs, lastVersion := 0, map[], version;
    }

    method Subscribe() returns (id: nat)
      requires Valid()
      modifies this`nextId, this`subs
      ensures Valid() && id !in old(subs) && nextId > old(nextId)
      ensures subs == old(subs)[id := false]
    {
      id := nextId;
      nextId := nextId + 1;
      subs := subs[id := false];
    }

    method Unsubscribe(id: nat)
      requires Valid()
      modifies this`subs
      ensures Valid() && subs == old(subs) - {id}
    {
      subs := subs - {id};
    }

    /** A full channel is left as it is, so bursts of commits coalesce. */
    method NotifyAll()
      requires Valid()
      modifies this`subs
      ensures Valid() && subs.Keys == old(subs).Keys && forall id :: id in subs ==> subs[id]
    {
      ghost var before := subs;
      var todo := subs.Keys;
      while todo != {}
        invariant todo <= subs.Keys == before.Keys
        invariant forall id :: id in subs && id !in todo ==> subs[id]
        decreases todo
      {
        var id :| id in todo;
        if !subs[id] { subs := subs[id := true]; }
        todo := todo - {id};
      }
    }

    /** One tick of the polling loop: a version other than the last one wakes everybody. */
    method Poll(version: int)
      requires Valid()
      modifies this`subs, this`lastVersion
      ensures Valid() && lastVersion == version && subs.Keys == old(subs).Keys
      ensures forall id :: id in subs ==> subs[id] == (version != old(lastVersion) || old(subs)[id])
    {
      if version != lastVersion {
        lastVersion := version;
        NotifyAll();
      }
    }

    /** A subscriber's receive that does not block. */
    method TryReceive(id: nat) returns (woken: bool)
      requires Valid() && id in subs
      modifies this`subs
      ensures Valid() && woken == old(subs)[id] && subs == old(subs)[id := false]
    {
      woken := subs[id];
      subs := subs[id := false];
    }
  }
}
