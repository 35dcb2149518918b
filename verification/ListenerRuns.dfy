/** A listener over any interleaving of notifications, prunes and polls after its Listen. */
module ListenerRuns {
  import opened Base
  import opened Notifications

  datatype Step =
    | Notify(channel: string, payload: string, now: int)
    | Prune(now: int, olderThan: int, maxKeep: int)
    | Poll

  /** `issued` is every id of the listener's channel handed out since Listen, `missed` those of
      them that a prune removed before the cursor got there. `born` is the id counter at Listen. */
  datatype World = World(
    channel: string,
    rows: Rows,
    lastId: int,
    born: int,
    cursor: int,
    delivered: seq<int>,
    issued: set<int>,
    missed: set<int>)

  ghost function Lowest(ids: set<int>): (r: Option<int>)
    ensures IsLowest(ids, r)
  {
    if ids == {} then None else Some(Least(ids))
  }

  ghost function Ahead(w: World): set<int> {
    AboveId(OnChannel(w.rows, w.channel), w.cursor)
  }

  ghost function Next(w: World, step: Step): World {
    match step
    case Notify(channel, payload, now) =>
      var id := w.lastId + 1;
      w.(lastId := id, rows := w.rows[id := Row(channel, payload, now)],
         issued := if channel == w.channel then w.issued + {id} else w.issued)
    case Prune(now, olderThan, maxKeep) =>
      var rows := Pruned(w.rows, now, olderThan, maxKeep);
      w.(rows := rows, missed := w.missed + (Ahead(w) - rows.Keys))
    case Poll =>
      match Lowest(Ahead(w))
      case None => w
      case Some(id) => w.(cursor := id, delivered := w.delivered + [id])
  }

  /** The state in which Listen leaves a table. */
  ghost predicate Listening(w: World) {
    && (forall id :: id in w.rows ==> 0 < id <= w.lastId)
    && w.born == w.lastId >= 0
    && IsMaxOrZero(OnChannel(w.rows, w.channel), w.cursor)
    && w.delivered == [] && w.issued == {} && w.missed == {}
  }

  ghost function Run(w: World, steps: seq<Step>): World {
    if steps == [] then w else Next(Run(w, steps[..|steps| - 1]), steps[|steps| - 1])
  }

  // The invariant.

  /** Every id issued is in exactly one place: delivered, missed, or still ahead. */
  ghost predicate Accounted(w: World) {
    forall id :: id in w.issued ==>
      && (id in w.delivered || id in w.missed || id in Ahead(w))
      && !(id in w.delivered && id in w.missed)
      && !(id in w.delivered && id in Ahead(w))
      && !(id in w.missed && id in Ahead(w))
  }

  ghost predicate Inv(w: World) {
    && 0 <= w.cursor <= w.lastId && 0 <= w.born <= w.lastId
    && (forall id :: id in w.rows ==> 0 < id <= w.lastId)
    && (forall id :: id in w.issued ==> w.born < id <= w.lastId)
    && (forall id :: id in Ahead(w) ==> id in w.issued)
    && (forall id :: id in w.missed ==> id in w.issued && id !in w.rows)
    && (forall id :: id in w.delivered ==> id in w.issued && id <= w.cursor)
    && StrictlyIncreasing(w.delivered)
    && Accounted(w)
  }

  lemma StartIsGood(w: World)
    requires Listening(w)
    ensures Inv(w)
  {
    assert Ahead(w) == {};
    if OnChannel(w.rows, w.channel) != {} { assert w.cursor in w.rows; }
  }

  lemma NotifyKeepsInv(w: World, step: Step)
    requires Inv(w) && step.Notify?
    ensures Inv(Next(w, step))
  {
    var w' := Next(w, step);
    var id := w.lastId + 1;
    assert Ahead(w') == if step.channel == w.channel then Ahead(w) + {id} else Ahead(w);
  }

  lemma PruneKeepsInv(w: World, step: Step)
    requires Inv(w) && step.Prune?
    ensures Inv(Next(w, step))
  {
    var w' := Next(w, step);
    assert w'.rows.Keys <= w.rows.Keys && forall id :: id in w'.rows ==> w'.rows[id] == w.rows[id];
    hide Pruned;
    assert Ahead(w') == Ahead(w) * w'.rows.Keys;
  }

  lemma PollKeepsInv(w: World, step: Step)
    requires Inv(w) && step.Poll?
    ensures Inv(Next(w, step))
  {
    var w' := Next(w, step);
    var r := Lowest(Ahead(w));
    if r.Some? {
      var id := r.value;
      hide Lowest;
      assert Ahead(w') == Ahead(w) - {id};
      assert forall i :: i in w'.delivered <==> i in w.delivered || i == id;
      forall i | 0 <= i < |w.delivered| ensures w.delivered[i] < id {
        assert w.delivered[i] in w.delivered;
      }
    }
  }

  lemma {:induction false} RunKeepsInv(w: World, steps: seq<Step>)
    requires Listening(w)
    ensures Inv(Run(w, steps)) && Run(w, steps).channel == w.channel && Run(w, steps).born == w.born
  {
    hide Inv, Next;
    if steps == [] {
      StartIsGood(w);
    } else {
      RunKeepsInv(w, steps[..|steps| - 1]);
      var last, step := Run(w, steps[..|steps| - 1]), steps[|steps| - 1];
      SameListener(last, step);
      match step
      case Notify(_, _, _) => NotifyKeepsInv(last, step);
      case Prune(_, _, _) => PruneKeepsInv(last, step);
      case Poll => PollKeepsInv(last, step);
    }
  }

  lemma SameListener(w: World, step: Step)
    ensures Next(w, step).channel == w.channel && Next(w, step).born == w.born
  {}

  // The theorems.

  /** Over every run the ids delivered increase strictly, they are above every id that existed at
      Listen, and each id issued on the channel since then is delivered once, unless a prune
      removed it before the cursor reached it. */
  lemma DeliveredInOrder(w0: World, steps: seq<Step>)
    requires Listening(w0)
    ensures var w := Run(w0, steps);
            && StrictlyIncreasing(w.delivered)
            && (forall id :: id in w.delivered ==> id in w.issued && id > w0.lastId)
            && (forall id :: id in w.issued && id <= w.cursor ==> (id in w.delivered <==> id !in w.missed))
            && (forall id :: id in w.issued && id > w.cursor ==> (id in w.rows <==> id !in w.missed))
  {
    RunKeepsInv(w0, steps);
    hide Run;
    var w := Run(w0, steps);
    assert forall id :: id in w.issued && id <= w.cursor ==> id !in Ahead(w);
  }

  /** A poll that finds nothing has left nothing out. */
  lemma EmptyPollMeansAllDelivered(w0: World, steps: seq<Step>)
    requires Listening(w0) && Lowest(Ahead(Run(w0, steps))).None?
    ensures var w := Run(w0, steps); forall id :: id in w.issued ==> (id in w.delivered <==> id !in w.missed)
  {
    RunKeepsInv(w0, steps);
    hide Run, Lowest;
  }

  /** A prune never hides a new notification: whatever was pruned, the next id is above the cursor
      and the next poll of an empty channel finds it. */
  lemma NewIdsAreAhead(w0: World, steps: seq<Step>, payload: string, now: int)
    requires Listening(w0)
    ensures var w := Run(w0, steps);
            var w' := Next(w, Notify(w0.channel, payload, now));
            && w'.lastId !in w.issued && w'.lastId in Ahead(w')
            && (Ahead(w) == {} ==> Next(w', Poll).delivered == w.delivered + [w'.lastId])
  {
    RunKeepsInv(w0, steps);
    hide Run;
    var w := Run(w0, steps);
    var w' := Next(w, Notify(w0.channel, payload, now));
    assert Ahead(w') == Ahead(w) + {w'.lastId};
  }
}
