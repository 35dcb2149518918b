/** A single named consumer of one topic over any number of sessions, any of which may end by
    cancellation or by a crash at any point, against any commits in between. */
module Consumers {
  import opened Base
  import opened Streams
  import opened Subscriptions

  datatype Step =
    | Publish(events: seq<Event>)
    | Start(now: int)
    | ReadBatch
    | SendEvent
    | SaveOrNot(m: Moment)
    | WakeUp
    | Cancel(works: bool)
    | Crash

  /** `sent` is everything any session put on its channel; `here` what the current session did
      after beginning at `start`, `again` how often it repeated itself; `high` is the highest
      offset ever sent, and `failed` says that a save has failed. */
  datatype World = World(
    log: seq<Event>,
    offsets: Offsets,
    session: Option<Session>,
    start: int,
    here: seq<Event>,
    again: nat,
    sent: seq<Event>,
    high: int,
    failed: bool)

  const EMPTY := World([], map[], None, 0, [], 0, [], 0, false)

  function SavedAt(cfg: Config, w: World): int {
    SavedOffset(w.offsets, cfg.consumer, cfg.topic)
  }

  ghost predicate Enabled(w: World, step: Step) {
    match step
    case Publish(events) => ValidLog(w.log + events)
    case Start(_) => w.session.None?
    case ReadBatch => w.session.Some? && w.session.value.stage.AtRead?
    case SendEvent => w.session.Some? && w.session.value.stage.AtSend? && w.session.value.batch != []
    case SaveOrNot(_) => w.session.Some? && w.session.value.stage.AtSave?
    case WakeUp => w.session.Some? && w.session.value.stage.AtWait?
    case Cancel(_) => w.session.Some? && (w.session.value.stage.AtSend? || w.session.value.stage.AtWait?)
    case Crash => w.session.Some?
  }

  ghost function Next(cfg: Config, w: World, step: Step): World
    requires Enabled(w, step)
  {
    match step
    case Publish(events) => w.(log := w.log + events)
    case Start(now) =>
      var s := Begin(cfg, w.offsets, now);
      w.(session := Some(s), start := s.cursor, here := [], again := 0)
    case ReadBatch => w.(session := Some(Read(cfg.topic, w.session.value, w.log)))
    case SendEvent =>
      var e := w.session.value.batch[0];
      w.(session := Some(Send(w.session.value)), here := w.here + [e], sent := w.sent + [e],
         again := if e in w.sent then w.again + 1 else w.again,
         high := if e.offset <= w.high then w.high else e.offset)
    case SaveOrNot(m) =>
      var (s, offsets) := SaveIfDue(cfg, w.session.value, w.offsets, m);
      w.(session := Some(s), offsets := offsets, failed := w.failed || (SaveDue(cfg, w.session.value, m.now) && !m.works))
    case WakeUp => w.(session := Some(Wake(w.session.value)))
    case Cancel(works) =>
      w.(session := None, offsets := Exit(cfg, w.session.value, w.offsets, works), failed := w.failed || (w.session.value.sinceSave > 0 && !works))
    case Crash => w.(session := None)
  }

  ghost function Run(cfg: Config, steps: seq<Step>): World
    requires ValidRun(cfg, steps)
    decreases |steps|, 2
  {
    if steps == [] then EMPTY else Next(cfg, Run(cfg, steps[..|steps| - 1]), steps[|steps| - 1])
  }

  ghost predicate ValidRun(cfg: Config, steps: seq<Step>)
    decreases |steps|, 1
  {
    steps != [] ==>
      && ValidRun(cfg, steps[..|steps| - 1])
      && Enabled(Run(cfg, steps[..|steps| - 1]), steps[|steps| - 1])
  }

  // The invariant.

  function Slack(cfg: Config): nat {
    if cfg.saveEveryN > 1 then cfg.saveEveryN else 1
  }

  /** How many events of the topic lie above an offset. */
  function Left(cfg: Config, w: World, after: int): nat {
    |Above(w.log, cfg.topic, after)|
  }

  /** Everything of the topic up to `high` was sent. */
  ghost predicate Covered(topic: string, log: seq<Event>, sent: seq<Event>, high: int) {
    forall e :: e in log && e.topic == topic && e.offset <= high ==> e in sent
  }

  ghost predicate Genuine(topic: string, log: seq<Event>, sent: seq<Event>, high: int) {
    forall e :: e in sent ==> e in log && e.topic == topic && e.offset <= high
  }

  ghost predicate SessionInv(cfg: Config, w: World, s: Session) {
    && OnCourse(w.log, cfg.topic, w.start, w.here, s)
    && SavedAt(cfg, w) <= s.cursor <= w.high
    && (!w.failed ==> Counted(cfg, w, s))
  }

  /** What a save that works keeps within bounds. */
  ghost predicate Counted(cfg: Config, w: World, s: Session) {
    && s.sinceSave + Left(cfg, w, s.cursor) == Left(cfg, w, SavedAt(cfg, w))
    && s.sinceSave <= Slack(cfg) && (!s.stage.AtSave? ==> s.sinceSave < Slack(cfg))
    && w.again + Left(cfg, w, s.cursor) <= Slack(cfg) + Left(cfg, w, w.high)
  }

  ghost predicate Inv(cfg: Config, w: World) {
    && ValidLog(w.log)
    && 0 <= SavedAt(cfg, w) <= w.high <= LastOffset(w.log)
    && Covered(cfg.topic, w.log, w.sent, w.high) && Genuine(cfg.topic, w.log, w.sent, w.high)
    && (!w.failed ==> Left(cfg, w, SavedAt(cfg, w)) <= Slack(cfg) + Left(cfg, w, w.high))
    && (w.session.Some? ==> SessionInv(cfg, w, w.session.value))
  }

  // Counting what lies above an offset.

  lemma {:induction false} FewerAbove(log: seq<Event>, topic: string, a: int, b: int)
    requires a <= b
    ensures |Above(log, topic, b)| <= |Above(log, topic, a)|
  {
    if log == [] {
    } else {
      FewerAbove(log[..|log| - 1], topic, a, b);
    }
  }

  /** Two offsets with no event of the topic between them select the same events. */
  lemma {:induction false} AboveGap(log: seq<Event>, topic: string, a: int, b: int)
    requires a <= b && forall e :: e in log && e.topic == topic ==> e.offset <= a || b < e.offset
    ensures Above(log, topic, a) == Above(log, topic, b)
  {
    if log == [] {
    } else {
      AboveGap(log[..|log| - 1], topic, a, b);
    }
  }

  /** The first event above an offset is the lowest one. */
  lemma FirstIsLowest(log: seq<Event>, topic: string, after: int, e: Event)
    requires InOrder(log) && Above(log, topic, after) != []
    requires e in log && e.topic == topic && e.offset > after
    ensures Above(log, topic, after)[0].offset <= e.offset
    ensures e.offset == Above(log, topic, after)[0].offset ==> e == Above(log, topic, after)[0]
  {
    AboveIsComplete(log, topic, after, e);
    AboveIsInOrder(log, topic, after);
    hide Above;
  }

  /** Commits add the same number of events above every offset in use. */
  lemma LeftGrows(log: seq<Event>, more: seq<Event>, topic: string, after: int)
    requires ValidLog(log + more) && 0 <= after <= LastOffset(log)
    ensures |Above(log + more, topic, after)| == |Above(log, topic, after)| + |Above(more, topic, 0)|
  {
    AboveConcat(log, more, topic, after);
    NewAbove(log, more, topic, 0, after);
  }

  // Every step keeps the invariant.

  predicate Named(cfg: Config) {
    cfg.consumer != "" && cfg.fromOffset == 0
  }

  /** New events lie above everything a session has touched. */
  lemma PublishKeepsCovered(cfg: Config, w: World, more: seq<Event>)
    requires ValidLog(w.log + more) && w.high <= LastOffset(w.log) && Covered(cfg.topic, w.log, w.sent, w.high) && Genuine(cfg.topic, w.log, w.sent, w.high)
    ensures var w' := w.(log := w.log + more);
            Covered(cfg.topic, w'.log, w.sent, w.high) && Genuine(cfg.topic, w'.log, w.sent, w.high) && LastOffset(w.log) <= LastOffset(w'.log)
  {
    forall e | e in more ensures e.offset > LastOffset(w.log) {
      assert e in w.log + more;
      if w.log != [] { NewerThan(w.log, more, e); }
    }
    if more != [] { assert more[|more| - 1] in more; } else { assert w.log + more == w.log; }
    hide ValidLog;
  }

  lemma PublishKeepsInv(cfg: Config, w: World, step: Step)
    requires Named(cfg) && Inv(cfg, w) && Enabled(w, step) && step.Publish?
    ensures Inv(cfg, Next(cfg, w, step))
  {
    hide Above, OnCourse, ValidLog, LastOffset, Covered, Genuine;
    var more := step.events;
    PublishKeepsCovered(cfg, w, more);
    LeftGrows(w.log, more, cfg.topic, SavedAt(cfg, w));
    LeftGrows(w.log, more, cfg.topic, w.high);
    if w.session.Some? {
      LeftGrows(w.log, more, cfg.topic, w.session.value.cursor);
      AppendKeepsCourse(w.log, more, cfg.topic, w.start, w.here, w.session.value);
    }
  }

  lemma StartKeepsInv(cfg: Config, w: World, step: Step)
    requires Named(cfg) && Inv(cfg, w) && Enabled(w, step) && step.Start?
    ensures Inv(cfg, Next(cfg, w, step))
  {
    var w' := Next(cfg, w, step);
    assert w'.start == SavedAt(cfg, w);
    assert [] + Above(w.log, cfg.topic, w'.start) == Above(w.log, cfg.topic, w'.start);
    hide Above, ValidLog;
  }

  /** What the next send means for the counts: a repeat if the event is not above `high`, else the
      first event above `high`. */
  lemma SendCounts(cfg: Config, w: World, s: Session)
    requires Inv(cfg, w) && w.session == Some(s) && s.stage.AtSend? && s.batch != []
    ensures var e := s.batch[0];
            && e in w.log && e.topic == cfg.topic && s.cursor < e.offset <= LastOffset(w.log)
            && Left(cfg, w, e.offset) == Left(cfg, w, s.cursor) - 1
            && (e in w.sent <==> e.offset <= w.high)
            && (e.offset > w.high ==> Left(cfg, w, w.high) == Left(cfg, w, s.cursor))
    ensures forall e :: e in w.log && e.topic == cfg.topic && w.high < e.offset <= s.batch[0].offset ==> e == s.batch[0]
  {
    var e := s.batch[0];
    assert e == Above(w.log, cfg.topic, s.cursor)[0];
    AboveIsComplete(w.log, cfg.topic, s.cursor, e);
    AboveNext(w.log, cfg.topic, s.cursor);
    InLog(w.log, e);
    forall other | other in w.log && other.topic == cfg.topic && other.offset > s.cursor
      ensures e.offset <= other.offset && (e.offset == other.offset ==> e == other)
    {
      FirstIsLowest(w.log, cfg.topic, s.cursor, other);
    }
    if e.offset > w.high { AboveGap(w.log, cfg.topic, s.cursor, w.high); }
    hide Above, InOrder;
  }

  lemma SendKeepsInv(cfg: Config, w: World, step: Step)
    requires Named(cfg) && Inv(cfg, w) && Enabled(w, step) && step.SendEvent?
    ensures Inv(cfg, Next(cfg, w, step))
  {
    var s := w.session.value;
    SendCounts(cfg, w, s);
    SendKeepsCourse(w.log, cfg.topic, w.start, w.here, s);
    hide Above, ValidLog, OnCourse, LastOffset;
  }

  /** A save moves the saved offset up to the cursor. */
  lemma SavedAfter(cfg: Config, w: World, offset: int)
    requires SavedAt(cfg, w) <= offset && 0 <= offset
    ensures SavedOffset(Save(w.offsets, cfg.consumer, cfg.topic, offset), cfg.consumer, cfg.topic) == offset
  {}

  lemma SaveKeepsInv(cfg: Config, w: World, step: Step)
    requires Named(cfg) && Inv(cfg, w) && Enabled(w, step) && step.SaveOrNot?
    ensures Inv(cfg, Next(cfg, w, step))
  {
    var s := w.session.value;
    SettleKeepsCourse(cfg, w.log, cfg.topic, w.start, w.here, s, w.offsets, step.m);
    SavedAfter(cfg, w, s.cursor);
    hide Above, ValidLog, OnCourse, LastOffset, Covered, Genuine, Save;
  }

  lemma ReadKeepsInv(cfg: Config, w: World, step: Step)
    requires Named(cfg) && Inv(cfg, w) && Enabled(w, step) && step.ReadBatch?
    ensures Inv(cfg, Next(cfg, w, step))
  {
    hide Above, ValidLog, LastOffset, OnCourse, UpToDate, Covered, Genuine;
    ReadKeepsCourse(w.log, cfg.topic, w.start, w.here, w.session.value);
  }

  lemma WakeKeepsInv(cfg: Config, w: World, step: Step)
    requires Named(cfg) && Inv(cfg, w) && Enabled(w, step) && step.WakeUp?
    ensures Inv(cfg, Next(cfg, w, step))
  {
    hide Above, ValidLog, LastOffset, OnCourse, Covered, Genuine;
    WakeKeepsCourse(w.log, cfg.topic, w.start, w.here, w.session.value);
  }

  lemma CancelKeepsInv(cfg: Config, w: World, step: Step)
    requires Named(cfg) && Inv(cfg, w) && Enabled(w, step) && step.Cancel?
    ensures Inv(cfg, Next(cfg, w, step))
  {
    hide Above, ValidLog, LastOffset, OnCourse, Covered, Genuine, Save;
    FewerAbove(w.log, cfg.topic, w.session.value.cursor, w.high);
    SavedAfter(cfg, w, w.session.value.cursor);
  }

  lemma CrashKeepsInv(cfg: Config, w: World, step: Step)
    requires Named(cfg) && Inv(cfg, w) && Enabled(w, step) && step.Crash?
    ensures Inv(cfg, Next(cfg, w, step))
  {
    hide Above, ValidLog, LastOffset, OnCourse, Covered, Genuine, Save;
  }

  lemma StepKeepsInv(cfg: Config, w: World, step: Step)
    requires Named(cfg) && Inv(cfg, w) && Enabled(w, step)
    ensures Inv(cfg, Next(cfg, w, step))
  {
    hide Inv, Next, Enabled;
    match step
    case Publish(_) => PublishKeepsInv(cfg, w, step);
    case Start(_) => StartKeepsInv(cfg, w, step);
    case ReadBatch => ReadKeepsInv(cfg, w, step);
    case SendEvent => SendKeepsInv(cfg, w, step);
    case SaveOrNot(_) => SaveKeepsInv(cfg, w, step);
    case WakeUp => WakeKeepsInv(cfg, w, step);
    case Cancel(_) => CancelKeepsInv(cfg, w, step);
    case Crash => CrashKeepsInv(cfg, w, step);
  }

  lemma {:induction false} RunKeepsInv(cfg: Config, steps: seq<Step>)
    requires Named(cfg) && ValidRun(cfg, steps)
    ensures Inv(cfg, Run(cfg, steps))
  {
    hide Inv, Next, Enabled;
    if steps == [] {
      assert Inv(cfg, EMPTY) by { EmptyIsGood(cfg); }
    } else {
      RunKeepsInv(cfg, steps[..|steps| - 1]);
      StepKeepsInv(cfg, Run(cfg, steps[..|steps| - 1]), steps[|steps| - 1]);
    }
  }

  lemma EmptyIsGood(cfg: Config)
    ensures Inv(cfg, EMPTY)
  {}

  // The theorems.

  /** Over every run: what was sent are committed events of the topic, and whatever the topic
      holds up to the highest of them was sent, so no crash or restart makes a consumer skip. */
  lemma NothingIsSkipped(cfg: Config, steps: seq<Step>)
    requires Named(cfg) && ValidRun(cfg, steps)
    ensures var w := Run(cfg, steps);
            forall e :: e in w.sent <==> e in w.log && e.topic == cfg.topic && e.offset <= w.high
  {
    RunKeepsInv(cfg, steps);
    hide Above, ValidLog, LastOffset, Run;
  }

  /** A session sends the topic's events above its start in increasing order, without a gap or a
      repeat, and one that has read everything and waits has sent all of them. */
  lemma SessionSendsInOrder(cfg: Config, steps: seq<Step>)
    requires Named(cfg) && ValidRun(cfg, steps) && Run(cfg, steps).session.Some?
    ensures var w := Run(cfg, steps);
            && w.here <= Above(w.log, cfg.topic, w.start) && InOrder(w.here)
            && (w.session.value.stage.AtWait? && UpToDate(w.log, cfg.topic, w.session.value) ==>
                  && w.here == Above(w.log, cfg.topic, w.start)
                  && forall e :: e in w.log && e.topic == cfg.topic ==> e in w.sent)
  {
    RunKeepsInv(cfg, steps);
    hide Run;
    var w := Run(cfg, steps);
    DrainedMeansAllSent(w.log, cfg.topic, w.start, w.here, w.session.value);
    if w.session.value.stage.AtWait? && UpToDate(w.log, cfg.topic, w.session.value) {
      forall e | e in w.log && e.topic == cfg.topic ensures e in w.sent {
        AboveIsComplete(w.log, cfg.topic, w.session.value.cursor, e);
      }
    }
  }

  /** An event between two offsets makes a difference. */
  lemma {:induction false} FewerAboveBetween(log: seq<Event>, topic: string, a: int, b: int, e: Event)
    requires e in log && e.topic == topic && a < e.offset <= b
    ensures |Above(log, topic, b)| < |Above(log, topic, a)|
  {
    var init := log[..|log| - 1];
    assert log == init + [log[|log| - 1]];
    FewerAbove(init, topic, a, b);
    if e in init { FewerAboveBetween(init, topic, a, b, e); }
  }

  lemma SentIsBelowCursor(log: seq<Event>, topic: string, start: int, sent: seq<Event>, s: Session, e: Event)
    requires InOrder(log) && OnCourse(log, topic, start, sent, s) && e in sent
    ensures e in log && e.topic == topic && e.offset <= s.cursor
  {
    AboveIsInOrder(log, topic, start);
    var all := Above(log, topic, start);
    var i :| 0 <= i < |sent| && sent[i] == e;
    assert all[i] == e;
    AboveIsComplete(log, topic, start, e);
    AboveIsComplete(log, topic, s.cursor, e);
    hide Above;
    var rest := Above(log, topic, s.cursor);
    forall j | 0 <= j < |rest| ensures rest[j] != e {
      assert all[|sent| + j] == rest[j];
    }
  }

  /** After a cancellation, while saves work, nothing that the session sent lies above the saved
      offset: no later session repeats it. */
  lemma CancelSavesAll(cfg: Config, steps: seq<Step>, e: Event)
    requires Named(cfg) && ValidRun(cfg, steps) && Enabled(Run(cfg, steps), Cancel(true))
    requires !Run(cfg, steps).failed && e in Run(cfg, steps).here
    ensures e.offset <= SavedAt(cfg, Next(cfg, Run(cfg, steps), Cancel(true)))
  {
    RunKeepsInv(cfg, steps);
    var w := Run(cfg, steps);
    var s := w.session.value;
    hide Run, Above;
    SentIsBelowCursor(w.log, cfg.topic, w.start, w.here, s, e);
    SavedAfter(cfg, w, s.cursor);
    hide OnCourse, Covered, Genuine, Save;
    if s.sinceSave == 0 && e.offset > SavedAt(cfg, w) {
      FewerAboveBetween(w.log, cfg.topic, SavedAt(cfg, w), s.cursor, e);
    }
  }

  /** While saves work, a session repeats at most max(1, saveEveryN) events that were sent before,
      and a crash now would make the next one repeat no more than that. */
  lemma FewEventsRepeat(cfg: Config, steps: seq<Step>)
    requires Named(cfg) && ValidRun(cfg, steps)
    ensures var w := Run(cfg, steps);
            !w.failed ==>
            && (w.session.Some? ==> w.again <= Slack(cfg))
            && |Above(w.log, cfg.topic, SavedAt(cfg, w))| - |Above(w.log, cfg.topic, w.high)| <= Slack(cfg)
  {
    RunKeepsInv(cfg, steps);
    hide Run;
    var w := Run(cfg, steps);
    if w.session.Some? { FewerAbove(w.log, cfg.topic, w.session.value.cursor, w.high); }
  }
}
