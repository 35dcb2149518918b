/** The event stream tables of stream.go. */
module Streams {
  import opened Base

  /** A row of _ganso_stream. */
  datatype Event = Event(offset: int, topic: string, key: string, payload: string)

  /** Offsets grow along the log: AUTOINCREMENT under a single writer. */
  predicate InOrder(log: seq<Event>) {
    forall i, j :: 0 <= i < j < |log| ==> log[i].offset < log[j].offset
  }

  /** The rows of the topic with an offset above `after`, in offset order. */
  function Above(log: seq<Event>, topic: string, after: int): seq<Event> {
    if log == [] then []
    else
      var init, last := log[..|log| - 1], log[|log| - 1];
      Above(init, topic, after) + if last.topic == topic && last.offset > after then [last] else []
  }

  lemma {:induction false} AboveIsComplete(log: seq<Event>, topic: string, after: int, e: Event)
    ensures e in Above(log, topic, after) <==> e in log && e.topic == topic && e.offset > after
  {
    if log == [] {
    } else {
      AboveIsComplete(log[..|log| - 1], topic, after, e);
      assert log == log[..|log| - 1] + [log[|log| - 1]];
    }
  }

  lemma {:induction false} AboveIsInOrder(log: seq<Event>, topic: string, after: int)
    requires InOrder(log)
    ensures InOrder(Above(log, topic, after))
  {
    if log == [] {
    } else {
      var init, last := log[..|log| - 1], log[|log| - 1];
      AboveIsInOrder(init, topic, after);
      var a := Above(init, topic, after);
      forall i | 0 <= i < |a| ensures a[i].offset < last.offset {
        AboveIsComplete(init, topic, after, a[i]);
      }
    }
  }

  lemma AboveAppend(log: seq<Event>, e: Event, topic: string, after: int)
    ensures Above(log + [e], topic, after) == Above(log, topic, after) + if e.topic == topic && e.offset > after then [e] else []
  {
    assert (log + [e])[..|log|] == log;
  }

  lemma Assoc<T>(a: seq<T>, b: seq<T>, c: seq<T>)
    ensures a + (b + c) == (a + b) + c
  {
  }

  lemma DropFirst<T>(a: seq<T>, b: seq<T>)
    requires a != []
    ensures (a + b)[1..] == a[1..] + b
  {
  }

  lemma AboveNextStep(init: seq<Event>, last: Event, topic: string, after: int)
    requires var a := Above(init, topic, after);
             a != [] && a[0].offset < last.offset && Above(init, topic, a[0].offset) == a[1..]
    ensures var b := Above(init + [last], topic, after);
            b != [] && Above(init + [last], topic, b[0].offset) == b[1..]
  {
    var a := Above(init, topic, after);
    AboveIsComplete(init, topic, after, a[0]);
    AboveAppend(init, last, topic, after);
    AboveAppend(init, last, topic, a[0].offset);
    hide *;
    DropFirst(a, if last.topic == topic && last.offset > after then [last] else []);
  }

  /** Moving the cursor to the first event above it leaves the rest above it. */
  lemma {:induction false} AboveNext(log: seq<Event>, topic: string, after: int)
    requires InOrder(log) && Above(log, topic, after) != []
    ensures Above(log, topic, Above(log, topic, after)[0].offset) == Above(log, topic, after)[1..]
  {
    var init, last := log[..|log| - 1], log[|log| - 1];
    var a := Above(init, topic, after);
    assert init + [last] == log;
    if a == [] {
      AboveNothing(init, topic, after, last.offset);
    } else {
      AboveNext(init, topic, after);
      AboveIsComplete(init, topic, after, a[0]);
      AboveNextStep(init, last, topic, after);
    }
  }

  lemma {:induction false} AboveNothing(log: seq<Event>, topic: string, after: int, higher: int)
    requires Above(log, topic, after) == [] && (forall e :: e in log ==> e.offset < higher)
    ensures Above(log, topic, higher) == []
  {
    if log == [] {
    } else {
      AboveNothing(log[..|log| - 1], topic, after, higher);
    }
  }

  /** A concatenated log is filtered part by part. */
  lemma {:induction false} AboveConcat(a: seq<Event>, b: seq<Event>, topic: string, after: int)
    ensures Above(a + b, topic, after) == Above(a, topic, after) + Above(b, topic, after)
  {
    if b == [] {
      assert a + b == a;
    } else {
      var init, last := b[..|b| - 1], b[|b| - 1];
      assert a + b == (a + init) + [last] && b == init + [last];
      AboveConcat(a, init, topic, after);
      AboveAppend(a + init, last, topic, after);
      AboveAppend(init, last, topic, after);
      hide *;
    }
  }

  /** Cursors below every event select the same events. */
  lemma {:induction false} AboveSame(log: seq<Event>, topic: string, a: int, b: int)
    requires forall e :: e in log ==> e.offset > a && e.offset > b
    ensures Above(log, topic, a) == Above(log, topic, b)
  {
    if log == [] {
    } else {
      AboveSame(log[..|log| - 1], topic, a, b);
    }
  }

  // The consumer table.

  /** Consumer and topic to offset: _ganso_stream_consumers. */
  type Offsets = map<(string, string), int>

  /** 0 for a consumer that was never saved. */
  function SavedOffset(offsets: Offsets, consumer: string, topic: string): int {
    if (consumer, topic) in offsets then offsets[(consumer, topic)] else 0
  }

  /** An offset below the stored one is ignored. */
  function Save(offsets: Offsets, consumer: string, topic: string, offset: int): (r: Offsets)
    ensures r.Keys == offsets.Keys + {(consumer, topic)}
    ensures r[(consumer, topic)] >= offset
    ensures r[(consumer, topic)] == offset || ((consumer, topic) in offsets && r[(consumer, topic)] == offsets[(consumer, topic)])
    ensures forall k :: k in offsets ==> r[k] >= offsets[k] && (k != (consumer, topic) ==> r[k] == offsets[k])
  {
    var k := (consumer, topic);
    if k in offsets && offsets[k] >= offset then offsets else offsets[k := offset]
  }

  class StreamTable {
    var log: seq<Event>
    var lastOffset: int
    var offsets: Offsets
    var notifications: seq<(string, string)>

    ghost predicate Valid()
      reads this
    {
      InOrder(log) && lastOffset >= 0 && forall e :: e in log ==> 0 < e.offset <= lastOffset
    }

    constructor ()
      ensures Valid() && log == [] && offsets == map[] && notifications == []
    {
      log, lastOffset, offsets, notifications := [], 0, map[], [];
    }

    /** publishOnConn: offsets only grow, and the topic's channel is notified. */
    method Publish(topic: string, key: string, payload: string) returns (offset: int)
      requires Valid()
      modifies this`log, this`lastOffset, this`notifications
      ensures Valid()
      ensures log == old(log) + [Event(offset, topic, key, payload)]
      ensures forall e :: e in old(log) ==> e.offset < offset
      ensures notifications == old(notifications) + [("ganso:stream:" + topic, "new")]
    {
      lastOffset := lastOffset + 1;
      offset := lastOffset;
      log := log + [Event(offset, topic, key, payload)];
      notifications := notifications + [("ganso:stream:" + topic, "new")];
    }

    /** readBatch: the first `limit` rows of the topic above the offset. */
    method ReadBatch(topic: string, after: int, limit: nat) returns (events: seq<Event>)
      ensures events == Limit(Above(log, topic, after), limit)
    {
      events := [];
      for i := 0 to |log|
        invariant events == Limit(Above(log[..i], topic, after), limit)
      {
        assert log[..i + 1][..i] == log[..i];
        if |events| < limit && log[i].topic == topic && log[i].offset > after { events := events + [log[i]]; }
      }
      assert log[..|log|] == log;
    }

    /** SaveOffset, on a database that works or does not. */
    method SaveOffset(consumer: string, topic: string, offset: int, works: bool) returns (ok: bool)
      modifies this`offsets
      ensures ok == works && offsets == if works then Save(old(offsets), consumer, topic, offset) else old(offsets)
    {
      if !works { return false; }
      ok := true;
      var k := (consumer, topic);
      if k !in offsets || offsets[k] < offset { offsets := offsets[k := offset]; }
    }

    /** GetOffset. */
    method GetOffset(consumer: string, topic: string) returns (offset: int)
      ensures offset == SavedOffset(offsets, consumer, topic)
    {
      offset := 0;
      if (consumer, topic) in offsets { offset := offsets[(consumer, topic)]; }
    }
  }
}
