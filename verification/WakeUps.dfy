/** The wake-up protocol of watcher.go with its two users that have no fallback timer,
    Stream.Subscribe (stream.go) and WaitResult (queue.go), step by step under any interleaving
    with commits. It begins at the watcher's baseline read and has no reconnect. */
module WakeUps {
  import opened Base
  import opened Results
  import opened Streams
  import opened Subscriptions

  /** A Stream.Subscribe, with the consumers' offsets as it found them, or a WaitResult. */
  datatype Client =
    | Follower(cfg: Config, saved: Offsets, start: int, sent: seq<Event>, session: Session)
    | Waiter(job: string, stage: WaitStage)

  /** A subscriber with its channel. `told` is the last version the watcher announced on the
      channel, or the watcher's own last version at registration; `seen` is the version that the
      subscriber's last read saw. */
  datatype Subscriber = Subscriber(client: Client, token: bool, told: nat, seen: nat)

  /** Where the watcher stands: between polls, waiting for the mutex with a new version already
      noted, or inside notifyAll with channels still to visit. */
  datatype Phase = Idle | Locking | Sending(pending: set<nat>)

  datatype Shared = Shared(
    log: seq<Event>,
    results: map<string, ResultRow>,
    clock: int,
    commits: nat,
    phase: Phase,
    last: nat)

  datatype World = World(g: Shared, nextId: nat, subs: map<nat, Subscriber>)

  datatype Step =
    | Commit(events: seq<Event>, results: map<string, ResultRow>)
    | Tick(now: int)
    | Poll
    | Lock
    | Notify(id: nat)
    | Unlock
    | Follow(cfg: Config, offsets: Offsets, now: int)
    | Await(job: string)
    | Leave(id: nat)
    | Look(id: nat)
    | SendEvent(id: nat)
    | SaveOrNot(id: nat, m: Moment)
    | Receive(id: nat)

  predicate Waiting(c: Client) {
    match c
    case Follower(_, _, _, _, session) => session.stage.AtWait?
    case Waiter(_, stage) => stage.Blocked?
  }

  /** About to read. */
  predicate Looking(c: Client) {
    match c
    case Follower(_, _, _, _, session) => session.stage.AtRead?
    case Waiter(_, stage) => stage.Checking?
  }

  ghost predicate Enabled(w: World, step: Step) {
    match step
    case Commit(events, _) => ValidLog(w.g.log + events)
    case Tick(now) => now >= w.g.clock
    case Poll => w.g.phase.Idle?
    case Lock => w.g.phase.Locking?
    case Notify(id) => w.g.phase.Sending? && id in w.g.phase.pending && id in w.subs
    case Unlock => w.g.phase == Sending({})
    case Follow(_, _, _) => !w.g.phase.Sending?
    case Await(_) => !w.g.phase.Sending?
    case Leave(id) => !w.g.phase.Sending? && id in w.subs
    case Look(id) => id in w.subs && Looking(w.subs[id].client)
    case SendEvent(id) =>
      && id in w.subs && w.subs[id].client.Follower?
      && w.subs[id].client.session.stage.AtSend? && w.subs[id].client.session.batch != []
    case SaveOrNot(id, _) => id in w.subs && w.subs[id].client.Follower? && w.subs[id].client.session.stage.AtSave?
    case Receive(id) => id in w.subs && Waiting(w.subs[id].client) && w.subs[id].token
  }

  function LookOf(c: Client, g: Shared): Client
    requires Looking(c)
  {
    match c
    case Follower(cfg, _, _, _, session) => c.(session := Read(cfg.topic, session, g.log))
    case Waiter(job, _) => c.(stage := if Available(g.results, job, g.clock) then Returned else Blocked)
  }

  function SendOf(c: Client): Client
    requires c.Follower? && c.session.stage.AtSend? && c.session.batch != []
  {
    c.(sent := c.sent + [c.session.batch[0]], session := Send(c.session))
  }

  function SaveOf(c: Client, m: Moment): Client
    requires c.Follower? && c.session.stage.AtSave?
  {
    c.(session := SaveIfDue(c.cfg, c.session, map[], m).0)
  }

  function ReceiveOf(c: Client): Client
    requires Waiting(c)
  {
    match c
    case Follower(_, _, _, _, session) => c.(session := Wake(session))
    case Waiter(_, _) => c.(stage := Checking)
  }

  /** Steps on what everybody shares. */
  function NextShared(g: Shared, ids: set<nat>, step: Step): Shared {
    match step
    case Commit(events, results) => g.(log := g.log + events, results := results, commits := g.commits + 1)
    case Tick(now) => g.(clock := now)
    case Poll => if g.commits != g.last then g.(last := g.commits, phase := Locking) else g
    case Lock => g.(phase := Sending(ids))
    case Notify(id) => if g.phase.Sending? then g.(phase := Sending(g.phase.pending - {id})) else g
    case Unlock => g.(phase := Idle)
    case _ => g
  }

  function Join(w: World, c: Client): World {
    w.(nextId := w.nextId + 1, subs := w.subs[w.nextId := Subscriber(c, false, w.g.last, 0)])
  }

  ghost function Next(w: World, step: Step): World
    requires Enabled(w, step)
  {
    match step
    case Follow(cfg, offsets, now) =>
      var s := Begin(cfg, offsets, now);
      Join(w, Follower(cfg, offsets, s.cursor, [], s))
    case Await(job) => Join(w, Waiter(job, Checking))
    case Leave(id) => w.(subs := w.subs - {id})
    case Notify(id) =>
      w.(g := NextShared(w.g, w.subs.Keys, step), subs := w.subs[id := w.subs[id].(token := true, told := w.g.last)])
    case Look(id) =>
      w.(subs := w.subs[id := w.subs[id].(client := LookOf(w.subs[id].client, w.g), seen := w.g.commits)])
    case SendEvent(id) => w.(subs := w.subs[id := w.subs[id].(client := SendOf(w.subs[id].client))])
    case SaveOrNot(id, m) =>
      // A save is a commit, too.
      var c := w.subs[id].client;
      w.(subs := w.subs[id := w.subs[id].(client := SaveOf(c, m))],
         g := if SaveDue(c.cfg, c.session, m.now) && m.works then w.g.(commits := w.g.commits + 1) else w.g)
    case Receive(id) =>
      w.(subs := w.subs[id := w.subs[id].(client := ReceiveOf(w.subs[id].client), token := false)])
    case _ => w.(g := NextShared(w.g, w.subs.Keys, step))
  }

  /** A follower starts at the offset it asks for, but a named one that asks for none at its saved
      offset. */
  predicate StartsAt(cfg: Config, saved: Offsets, start: int) {
    if cfg.consumer == "" || cfg.fromOffset != 0 then start == cfg.fromOffset
    else start == if (cfg.consumer, cfg.topic) in saved && saved[(cfg.consumer, cfg.topic)] > 0 then saved[(cfg.consumer, cfg.topic)] else 0
  }

  /** Registered, and nothing read yet. */
  predicate Unread(c: Client) {
    match c
    case Follower(cfg, saved, start, sent, session) =>
      StartsAt(cfg, saved, start) && sent == [] && session.stage.AtRead? && session.batch == [] && session.cursor == start
    case Waiter(_, stage) => stage.Checking?
  }

  /** The baseline read: the watcher knows the current version, and whoever has subscribed so far
      has its first read ahead. */
  ghost predicate Initial(w: World) {
    && ValidLog(w.g.log) && w.g.phase.Idle? && w.g.last == w.g.commits
    && forall id :: id in w.subs ==>
         id < w.nextId && Unread(w.subs[id].client) && w.subs[id].told == w.g.last && w.subs[id].seen <= w.g.commits
  }

  ghost function Run(w: World, steps: seq<Step>): World
    requires ValidRun(w, steps)
    decreases |steps|, 2
  {
    if steps == [] then w else Next(Run(w, steps[..|steps| - 1]), steps[|steps| - 1])
  }

  ghost predicate ValidRun(w: World, steps: seq<Step>)
    decreases |steps|, 1
  {
    steps != [] ==>
      && ValidRun(w, steps[..|steps| - 1])
      && Enabled(Run(w, steps[..|steps| - 1]), steps[|steps| - 1])
  }

  // The invariant.

  /** A subscriber that has read since it last took a token, and whose channel is empty, has seen
      every version announced to it. */
  predicate Told(g: Shared, id: nat, s: Subscriber) {
    && s.told <= g.last && s.seen <= g.commits
    && (g.phase.Idle? || (g.phase.Sending? && id !in g.phase.pending) ==> s.told == g.last)
    && (!Looking(s.client) && !s.token ==> s.told <= s.seen)
  }

  /** A subscriber that saw the last commit knows all there is to know. */
  ghost predicate Knows(g: Shared, s: Subscriber) {
    match s.client
    case Follower(cfg, saved, start, sent, session) =>
      && StartsAt(cfg, saved, start)
      && OnCourse(g.log, cfg.topic, start, sent, session)
      && (s.seen == g.commits && !session.stage.AtRead? && !session.full ==> UpToDate(g.log, cfg.topic, session))
    case Waiter(job, stage) =>
      s.seen == g.commits && stage.Blocked? ==> !Available(g.results, job, g.clock)
  }

  ghost predicate GoodSub(g: Shared, id: nat, s: Subscriber) {
    Told(g, id, s) && Knows(g, s)
  }

  ghost predicate Inv(w: World) {
    && ValidLog(w.g.log) && w.g.last <= w.g.commits
    && (w.g.phase.Sending? ==> w.g.phase.pending <= w.subs.Keys)
    && (forall id :: id in w.subs ==> id < w.nextId && GoodSub(w.g, id, w.subs[id]))
  }

  // Every step keeps it.

  /** What others do to the shared state does not hurt a subscriber. */
  lemma SharedKeepsSub(g: Shared, ids: set<nat>, step: Step, id: nat, s: Subscriber)
    requires GoodSub(g, id, s) && ValidLog(g.log) && g.last <= g.commits && id in ids
    requires step.Commit? ==> ValidLog(g.log + step.events)
    requires step.Tick? ==> step.now >= g.clock
    requires step.Poll? ==> g.phase.Idle?
    requires step.Unlock? ==> g.phase == Sending({})
    requires step.Notify? ==> step.id != id
    ensures GoodSub(NextShared(g, ids, step), id, s)
  {
    hide Read, Begin, SaveIfDue;
    if step.Commit? && s.client.Follower? {
      AppendKeepsCourse(g.log, step.events, s.client.cfg.topic, s.client.start, s.client.sent, s.client.session);
    }
    hide OnCourse, UpToDate, ValidLog;
  }

  lemma SaveKeepsOther(g: Shared, id: nat, s: Subscriber)
    requires GoodSub(g, id, s)
    ensures GoodSub(g.(commits := g.commits + 1), id, s)
  {
    hide OnCourse, UpToDate;
  }

  /** A fresh read makes a subscriber know everything. */
  lemma LookIsGood(g: Shared, id: nat, s: Subscriber)
    requires GoodSub(g, id, s) && g.last <= g.commits && Looking(s.client)
    ensures GoodSub(g, id, s.(client := LookOf(s.client, g), seen := g.commits))
  {
    if s.client.Follower? {
      ReadKeepsCourse(g.log, s.client.cfg.topic, s.client.start, s.client.sent, s.client.session);
    }
    hide OnCourse, UpToDate, Read, Available;
  }

  lemma SendIsGood(g: Shared, id: nat, s: Subscriber)
    requires GoodSub(g, id, s) && ValidLog(g.log)
    requires s.client.Follower? && s.client.session.stage.AtSend? && s.client.session.batch != []
    ensures GoodSub(g, id, s.(client := SendOf(s.client)))
  {
    SendKeepsCourse(g.log, s.client.cfg.topic, s.client.start, s.client.sent, s.client.session);
    hide OnCourse, UpToDate;
  }

  lemma SaveIsGood(g: Shared, id: nat, s: Subscriber, m: Moment)
    requires GoodSub(g, id, s) && s.client.Follower? && s.client.session.stage.AtSave?
    ensures GoodSub(g, id, s.(client := SaveOf(s.client, m)))
  {
    var c := s.client;
    SettleKeepsCourse(c.cfg, g.log, c.cfg.topic, c.start, c.sent, c.session, map[], m);
    hide OnCourse;
  }

  lemma ReceiveIsGood(g: Shared, id: nat, s: Subscriber)
    requires GoodSub(g, id, s) && Waiting(s.client)
    ensures GoodSub(g, id, s.(client := ReceiveOf(s.client), token := false))
  {
    hide UpToDate;
  }

  lemma UnreadIsGood(g: Shared, id: nat, s: Subscriber)
    requires g.last <= g.commits && !g.phase.Sending?
    requires Unread(s.client) && s.told == g.last && s.seen <= g.commits
    ensures GoodSub(g, id, s)
  {
    if s.client.Follower? {
      assert [] + Above(g.log, s.client.cfg.topic, s.client.start) == Above(g.log, s.client.cfg.topic, s.client.start);
    }
  }

  predicate IsShared(step: Step) {
    step.Commit? || step.Tick? || step.Poll? || step.Lock? || step.Unlock?
  }

  lemma SharedKeepsInv(w: World, step: Step)
    requires Inv(w) && Enabled(w, step) && IsShared(step)
    ensures Inv(Next(w, step))
  {
    forall id | id in w.subs ensures GoodSub(NextShared(w.g, w.subs.Keys, step), id, w.subs[id]) {
      SharedKeepsSub(w.g, w.subs.Keys, step, id, w.subs[id]);
    }
    hide GoodSub, ValidLog;
  }

  lemma NotifyKeepsInv(w: World, step: Step)
    requires Inv(w) && Enabled(w, step) && step.Notify?
    ensures Inv(Next(w, step))
  {
    var g' := NextShared(w.g, w.subs.Keys, step);
    var s := w.subs[step.id].(token := true, told := w.g.last);
    assert GoodSub(g', step.id, s) by { hide OnCourse, UpToDate, Available; }
    forall id | id in w.subs && id != step.id ensures GoodSub(g', id, w.subs[id]) {
      SharedKeepsSub(w.g, w.subs.Keys, step, id, w.subs[id]);
    }
    hide GoodSub, ValidLog;
  }

  lemma JoinKeepsInv(w: World, c: Client)
    requires Inv(w) && GoodSub(w.g, w.nextId, Subscriber(c, false, w.g.last, 0)) && !w.g.phase.Sending?
    ensures Inv(Join(w, c))
  {
    hide GoodSub, ValidLog;
  }

  /** One subscriber moved and is still good. */
  lemma MoveKeepsInv(w: World, id: nat, s: Subscriber)
    requires Inv(w) && id in w.subs && GoodSub(w.g, id, s)
    ensures Inv(w.(subs := w.subs[id := s]))
  {
    hide GoodSub, ValidLog;
  }

  lemma SaveKeepsInv(w: World)
    requires Inv(w)
    ensures Inv(w.(g := w.g.(commits := w.g.commits + 1)))
  {
    forall id | id in w.subs ensures GoodSub(w.g.(commits := w.g.commits + 1), id, w.subs[id]) {
      SaveKeepsOther(w.g, id, w.subs[id]);
    }
    hide GoodSub, ValidLog;
  }

  lemma SubscriberKeepsInv(w: World, step: Step)
    requires Inv(w) && Enabled(w, step) && (step.Look? || step.SendEvent? || step.SaveOrNot? || step.Receive?)
    ensures Inv(Next(w, step))
  {
    var s := w.subs[step.id];
    assert GoodSub(w.g, step.id, s) && ValidLog(w.g.log) && w.g.last <= w.g.commits;
    hide Inv, GoodSub, LookOf, SendOf, SaveOf, ReceiveOf, ValidLog;
    match step
    case Look(id) =>
      LookIsGood(w.g, id, s);
      MoveKeepsInv(w, id, s.(client := LookOf(s.client, w.g), seen := w.g.commits));
    case SendEvent(id) =>
      SendIsGood(w.g, id, s);
      MoveKeepsInv(w, id, s.(client := SendOf(s.client)));
    case SaveOrNot(id, m) =>
      SaveIsGood(w.g, id, s, m);
      MoveKeepsInv(w, id, s.(client := SaveOf(s.client, m)));
      SaveKeepsInv(w.(subs := w.subs[id := s.(client := SaveOf(s.client, m))]));
    case Receive(id) =>
      ReceiveIsGood(w.g, id, s);
      MoveKeepsInv(w, id, s.(client := ReceiveOf(s.client), token := false));
  }

  lemma StepKeepsInv(w: World, step: Step)
    requires Inv(w) && Enabled(w, step)
    ensures Inv(Next(w, step))
  {
    hide GoodSub, ValidLog;
    match step
    case Follow(cfg, offsets, now) =>
      var s := Begin(cfg, offsets, now);
      UnreadIsGood(w.g, w.nextId, Subscriber(Follower(cfg, offsets, s.cursor, [], s), false, w.g.last, 0));
      JoinKeepsInv(w, Follower(cfg, offsets, s.cursor, [], s));
    case Await(job) =>
      UnreadIsGood(w.g, w.nextId, Subscriber(Waiter(job, Checking), false, w.g.last, 0));
      JoinKeepsInv(w, Waiter(job, Checking));
    case Leave(_) =>
    case Notify(_) => NotifyKeepsInv(w, step);
    case Look(_) => SubscriberKeepsInv(w, step);
    case SendEvent(_) => SubscriberKeepsInv(w, step);
    case SaveOrNot(_, _) => SubscriberKeepsInv(w, step);
    case Receive(_) => SubscriberKeepsInv(w, step);
    case _ => SharedKeepsInv(w, step);
  }

  lemma {:induction false} RunKeepsInv(w: World, steps: seq<Step>)
    requires Initial(w) && ValidRun(w, steps)
    ensures Inv(Run(w, steps))
  {
    if steps == [] {
      forall id | id in w.subs ensures GoodSub(w.g, id, w.subs[id]) {
        UnreadIsGood(w.g, id, w.subs[id]);
      }
    } else {
      hide Inv, Next, Enabled, Initial;
      RunKeepsInv(w, steps[..|steps| - 1]);
      StepKeepsInv(Run(w, steps[..|steps| - 1]), steps[|steps| - 1]);
    }
  }

  // The theorems.

  /** No wake-up is lost: in every run, a subscriber that is blocked on an empty channel has read
      every version announced on it; once notifyAll is through with the channel that is every
      version the watcher has noticed. */
  lemma NoLostWakeUp(w0: World, steps: seq<Step>, id: nat)
    requires Initial(w0) && ValidRun(w0, steps) && id in Run(w0, steps).subs
    ensures var w := Run(w0, steps); var s := w.subs[id];
            Waiting(s.client) && !s.token ==>
              && s.told <= s.seen
              && (w.g.phase.Idle? || (w.g.phase.Sending? && id !in w.g.phase.pending) ==> w.g.last <= s.seen)
  {
    RunKeepsInv(w0, steps);
    hide Run, Knows;
  }

  /** The sends of notifyAll to these subscribers, one after the other. */
  function Sends(order: seq<nat>): (steps: seq<Step>)
    ensures |steps| == |order|
  {
    if order == [] then [] else Sends(order[..|order| - 1]) + [Notify(order[|order| - 1])]
  }

  /** These subscribers have a token and were told; nothing else changed. */
  predicate Reached(w: World, w': World, order: seq<nat>) {
    && w'.g == w.g.(phase := w'.g.phase) && w'.nextId == w.nextId && w'.subs.Keys == w.subs.Keys
    && forall id :: id in w.subs ==>
         w'.subs[id] == if id in order then w.subs[id].(token := true, told := w.g.last) else w.subs[id]
  }

  lemma ReachOneMore(w: World, w1: World, init: seq<nat>, id: nat)
    requires Reached(w, w1, init) && id !in init && Enabled(w1, Notify(id))
    ensures Reached(w, Next(w1, Notify(id)), init + [id])
    ensures Next(w1, Notify(id)).g.phase == Sending(w1.g.phase.pending - {id})
  {
    assert forall i :: i in init + [id] <==> i in init || i == id;
  }

  /** notifyAll undisturbed, in any order of the map, reaches everybody in that order and leaves the
      rest to visit; with no rest this is UpdateWatcher.NotifyAll in one piece. */
  lemma {:induction false} FanOutReachesAll(w: World, order: seq<nat>, rest: set<nat>)
    requires w.g.phase.Sending? && w.g.phase.pending <= w.subs.Keys
    requires rest + Elements(order) == w.g.phase.pending && rest !! Elements(order) && Distinct(order)
    ensures ValidRun(w, Sends(order)) && Reached(w, Run(w, Sends(order)), order)
    ensures Run(w, Sends(order)).g.phase == Sending(rest)
  {
    if order == [] {
      NobodyReached(w);
      hide Reached, Next, Enabled;
    } else {
      var init, last := order[..|order| - 1], order[|order| - 1];
      assert order == init + [last] && last !in init && last in Elements(order);
      assert Elements(order) == Elements(init) + {last} && last !in Elements(init);
      assert Sends(order) == Sends(init) + [Notify(last)];
      hide Enabled, Next, Reached, Run, ValidRun, Sends, Elements;
      FanOutReachesAll(w, init, rest + {last});
      var w1 := Run(w, Sends(init));
      SendIsEnabled(w, w1, init, last);
      ReachOneMore(w, w1, init, last);
      RunExtends(w, Sends(init), Notify(last));
      assert rest + {last} - {last} == rest;
    }
  }

  lemma NobodyReached(w: World)
    ensures Reached(w, w, [])
  {}

  lemma RunExtends(w: World, steps: seq<Step>, step: Step)
    requires ValidRun(w, steps) && Enabled(Run(w, steps), step)
    ensures ValidRun(w, steps + [step]) && Run(w, steps + [step]) == Next(Run(w, steps), step)
  {
    hide Enabled, Next;
    assert (steps + [step])[..|steps|] == steps;
  }

  lemma SendIsEnabled(w: World, w1: World, init: seq<nat>, id: nat)
    requires Reached(w, w1, init) && id in w.subs && w1.g.phase.Sending? && id in w1.g.phase.pending
    ensures Enabled(w1, Notify(id))
  {}

  /** Quiescence: when the watcher has announced the last commit, a blocked Stream.Subscribe with
      an empty channel has sent exactly the events of its topic above the offset it asked for, or above
      its consumer's saved offset if it is a named one that asked for none; and a blocked WaitResult
      with an empty channel has no result to return. */
  lemma BlockedMeansDone(w0: World, steps: seq<Step>, id: nat)
    requires Initial(w0) && ValidRun(w0, steps) && id in Run(w0, steps).subs
    requires var w := Run(w0, steps);
             w.g.phase.Idle? && w.g.last == w.g.commits && Waiting(w.subs[id].client) && !w.subs[id].token
    ensures var w := Run(w0, steps);
            match w.subs[id].client
            case Follower(cfg, saved, start, sent, _) =>
              var k := (cfg.consumer, cfg.topic);
              && (cfg.consumer == "" || cfg.fromOffset != 0 ==> start == cfg.fromOffset)
              && (cfg.consumer != "" && cfg.fromOffset == 0 ==> start == if k in saved && saved[k] > 0 then saved[k] else 0)
              && InOrder(sent) && forall e :: e in sent <==> e in w.g.log && e.topic == cfg.topic && e.offset > start
            case Waiter(job, _) =>
              job !in w.g.results || (w.g.results[job].expires.Some? && w.g.results[job].expires.value <= w.g.clock)
  {
    RunKeepsInv(w0, steps);
    hide Run;
    var w := Run(w0, steps);
    NoLostWakeUp(w0, steps, id);
    match w.subs[id].client
    case Follower(cfg, saved, start, sent, session) =>
      DrainedMeansAllSent(w.g.log, cfg.topic, start, sent, session);
      forall e { AboveIsComplete(w.g.log, cfg.topic, start, e); }
    case Waiter(_, _) =>
  }
}
