/** The loop of Stream.Subscribe in stream.go: read a batch, send it event by event, save now and
    then, and wait for the watcher once a batch was not full. */
module Subscriptions {
  import opened Base
  import opened Streams

  const BATCH_SIZE: nat := 100

  datatype Config = Config(topic: string, consumer: string, fromOffset: int, saveEveryN: int, saveEveryDur: int)

  /** Where the goroutine stands: before readBatch, before a send, between a send and the save
      that may follow it, or blocked on the wake-up channel. */
  datatype Stage = AtRead | AtSend | AtSave | AtWait

  datatype Session = Session(stage: Stage, cursor: int, batch: seq<Event>, full: bool, sinceSave: nat, lastSave: int)

  function StartCursor(cfg: Config, offsets: Offsets): int {
    if cfg.consumer != "" && cfg.fromOffset == 0 && SavedOffset(offsets, cfg.consumer, cfg.topic) > 0
    then SavedOffset(offsets, cfg.consumer, cfg.topic)
    else cfg.fromOffset
  }

  function Begin(cfg: Config, offsets: Offsets, now: int): Session {
    Session(AtRead, StartCursor(cfg, offsets), [], false, 0, now)
  }

  /** A session starts at the offset asked for, but a named consumer that asks for none goes on from
      its saved offset. */
  lemma SessionStart(cfg: Config, offsets: Offsets, now: int)
    ensures var s, k := Begin(cfg, offsets, now), (cfg.consumer, cfg.topic);
            && (cfg.consumer == "" || cfg.fromOffset != 0 ==> s.cursor == cfg.fromOffset)
            && (cfg.consumer != "" && cfg.fromOffset == 0 ==> s.cursor == if k in offsets && offsets[k] > 0 then offsets[k] else 0)
            && s.stage.AtRead? && s.batch == [] && s.sinceSave == 0 && s.lastSave == now
  {}

  function Settle(batch: seq<Event>, full: bool): Stage {
    if batch != [] then AtSend else if full then AtRead else AtWait
  }

  function Read(topic: string, s: Session, log: seq<Event>): Session
    requires s.stage.AtRead?
  {
    var events := Limit(Above(log, topic, s.cursor), BATCH_SIZE);
    var full := |events| == BATCH_SIZE;
    s.(stage := Settle(events, full), batch := events, full := full)
  }

  function Send(s: Session): Session
    requires s.stage.AtSend? && s.batch != []
  {
    s.(stage := AtSave, cursor := s.batch[0].offset, batch := s.batch[1..], sinceSave := s.sinceSave + 1)
  }

  predicate SaveDue(cfg: Config, s: Session, now: int) {
    cfg.consumer != "" && (s.sinceSave >= cfg.saveEveryN || now - s.lastSave >= cfg.saveEveryDur)
  }

  /** The clock as the test for a save reads it, the clock after the save, and whether a save works;
      its error is ignored. */
  datatype Moment = Moment(now: int, later: int, works: bool)

  function SaveIfDue(cfg: Config, s: Session, offsets: Offsets, m: Moment): (Session, Offsets)
    requires s.stage.AtSave?
  {
    var settled := s.(stage := Settle(s.batch, s.full));
    if SaveDue(cfg, s, m.now)
    then (settled.(sinceSave := 0, lastSave := m.later),
          if m.works then Save(offsets, cfg.consumer, cfg.topic, s.cursor) else offsets)
    else (settled, offsets)
  }

  /** A save is tried for a named consumer when enough events were sent since the last one, or enough
      time has passed, and what is saved never goes back. Then the batch goes on; a session waits only
      after a batch that was not full. */
  lemma SaveActs(cfg: Config, s: Session, offsets: Offsets, m: Moment)
    requires s.stage.AtSave?
    ensures var (s', offsets') := SaveIfDue(cfg, s, offsets, m);
            var k := (cfg.consumer, cfg.topic);
            var due := cfg.consumer != "" && (s.sinceSave >= cfg.saveEveryN || m.now >= s.lastSave + cfg.saveEveryDur);
            && s'.cursor == s.cursor && s'.batch == s.batch && s'.full == s.full
            && s'.stage == (if s.batch != [] then AtSend else if s.full then AtRead else AtWait)
            && (due ==> s'.sinceSave == 0 && s'.lastSave == m.later)
            && (!due ==> s'.sinceSave == s.sinceSave && s'.lastSave == s.lastSave)
            && (due && m.works ==>
                  k in offsets' && offsets'[k] == (if k in offsets && offsets[k] > s.cursor then offsets[k] else s.cursor))
            && (due && m.works ==> offsets' - {k} == offsets - {k})
            && (!due || !m.works ==> offsets' == offsets)
  {}

  /** A cancelled session tries a last save if it has sent anything since the one before. */
  lemma ExitActs(cfg: Config, s: Session, offsets: Offsets, works: bool)
    ensures var offsets', k := Exit(cfg, s, offsets, works), (cfg.consumer, cfg.topic);
            if cfg.consumer != "" && s.sinceSave > 0 && works then
              && k in offsets' && offsets'[k] == (if k in offsets && offsets[k] > s.cursor then offsets[k] else s.cursor)
              && offsets' - {k} == offsets - {k}
            else offsets' == offsets
  {}

  function Wake(s: Session): Session
    requires s.stage.AtWait?
  {
    s.(stage := AtRead)
  }

  /** What a cancelled subscription leaves behind. */
  function Exit(cfg: Config, s: Session, offsets: Offsets, works: bool): Offsets {
    if cfg.consumer != "" && s.sinceSave > 0 && works then Save(offsets, cfg.consumer, cfg.topic, s.cursor) else offsets
  }

  /** Sending one event at each of the moments. */
  function Deliver(cfg: Config, s: Session, offsets: Offsets, times: seq<Moment>): (r: (Session, Offsets))
    requires |times| <= |s.batch| && s.stage == Settle(s.batch, s.full)
    ensures r.0.batch == s.batch[|times|..] && r.0.full == s.full && r.0.stage == Settle(r.0.batch, r.0.full)
    decreases |times|
  {
    if times == [] then (s, offsets)
    else
      var (before, saved) := Deliver(cfg, s, offsets, times[..|times| - 1]);
      SaveIfDue(cfg, Send(before), saved, times[|times| - 1])
  }

  class Subscription {
    const cfg: Config
    var stage: Stage
    var cursor: int
    var batch: seq<Event>
    var full: bool
    var sinceSave: nat
    var lastSave: int

    function View(): Session
      reads this
    {
      Session(stage, cursor, batch, full, sinceSave, lastSave)
    }

    constructor (cfg: Config, db: StreamTable, now: int)
      ensures this.cfg == cfg && View() == Begin(cfg, db.offsets, now)
    {
      this.cfg := cfg;
      stage, batch, full, sinceSave, lastSave := AtRead, [], false, 0, now;
      var start := cfg.fromOffset;
      if cfg.consumer != "" && cfg.fromOffset == 0 {
        var saved := db.GetOffset(cfg.consumer, cfg.topic);
        if saved > start { start := saved; }
      }
      cursor := start;
    }

    method ReadNext(db: StreamTable)
      requires stage.AtRead?
      modifies this
      ensures View() == Read(cfg.topic, old(View()), db.log)
    {
      batch := db.ReadBatch(cfg.topic, cursor, BATCH_SIZE);
      full := |batch| == BATCH_SIZE;
      stage := Settle(batch, full);
    }

    /** One turn of the loop over a batch. */
    method SendOne(db: StreamTable, m: Moment) returns (sent: Event)
      requires batch != [] && stage == Settle(batch, full)
      modifies this, db`offsets
      ensures sent == old(batch)[0]
      ensures (View(), db.offsets) == SaveIfDue(cfg, Send(old(View())), old(db.offsets), m)
    {
      sent := batch[0];
      cursor, batch, sinceSave := batch[0].offset, batch[1..], sinceSave + 1;
      if cfg.consumer != "" && (sinceSave >= cfg.saveEveryN || m.now - lastSave >= cfg.saveEveryDur) {
        var _ := db.SaveOffset(cfg.consumer, cfg.topic, cursor, m.works);
        sinceSave, lastSave := 0, m.later;
      }
      stage := Settle(batch, full);
    }

    /** The loop over a batch; it goes through |times| events and then the batch is over or the
        context is done. */
    method SendBatch(db: StreamTable, times: seq<Moment>) returns (sent: seq<Event>)
      requires |times| <= |batch| && stage == Settle(batch, full)
      modifies this, db`offsets
      ensures sent == old(batch)[..|times|]
      ensures (View(), db.offsets) == Deliver(cfg, old(View()), old(db.offsets), times)
    {
      sent := [];
      ghost var s, offsets := View(), db.offsets;
      for i := 0 to |times|
        invariant sent == s.batch[..i]
        invariant (View(), db.offsets) == Deliver(cfg, s, offsets, times[..i])
      {
        assert times[..i + 1][..i] == times[..i];
        assert batch == View().batch == s.batch[i..];
        hide SaveIfDue, Send, Save;
        var e := SendOne(db, times[i]);
        sent := sent + [e];
      }
      assert times[..|times|] == times;
    }

    method Cancel(db: StreamTable, works: bool)
      modifies db`offsets
      ensures db.offsets == Exit(cfg, View(), old(db.offsets), works)
    {
      if cfg.consumer != "" && sinceSave > 0 { var _ := db.SaveOffset(cfg.consumer, cfg.topic, cursor, works); }
    }
  }

  // What a session keeps.

  ghost predicate ValidLog(log: seq<Event>) {
    InOrder(log) && forall e :: e in log ==> e.offset > 0
  }

  function LastOffset(log: seq<Event>): int {
    if log == [] then 0 else log[|log| - 1].offset
  }

  /** A session that began at `start` and sent `sent` so far: what it sent and what lies above its
      cursor are together what lies above its start. */
  ghost predicate OnCourse(log: seq<Event>, topic: string, start: int, sent: seq<Event>, s: Session) {
    && start <= s.cursor && (s.cursor == start || s.cursor <= LastOffset(log))
    && s.batch <= Above(log, topic, s.cursor)
    && sent + Above(log, topic, s.cursor) == Above(log, topic, start)
    && (s.stage.AtRead? || s.stage.AtWait? ==> s.batch == [])
    && (s.stage.AtSend? ==> s.batch != [])
    && (s.stage.AtWait? ==> !s.full)
  }

  /** Nothing of the topic is waiting that the session has not read. */
  ghost predicate UpToDate(log: seq<Event>, topic: string, s: Session) {
    s.batch == Above(log, topic, s.cursor)
  }

  lemma NewerThan(log: seq<Event>, more: seq<Event>, e: Event)
    requires InOrder(log + more) && e in more && log != []
    ensures e.offset > LastOffset(log)
  {
    var k :| 0 <= k < |more| && more[k] == e;
    assert (log + more)[|log| + k] == e && (log + more)[|log| - 1] == log[|log| - 1];
  }

  lemma NewAbove(log: seq<Event>, more: seq<Event>, topic: string, start: int, cursor: int)
    requires ValidLog(log + more) && start <= cursor && (cursor == start || cursor <= LastOffset(log))
    ensures Above(more, topic, cursor) == Above(more, topic, start)
    ensures more != [] && cursor > start ==> cursor <= LastOffset(log + more)
  {
    if cursor > start {
      forall e | e in more ensures e.offset > cursor {
        assert e in log + more;
        if log != [] { NewerThan(log, more, e); }
      }
      AboveSame(more, topic, cursor, start);
      if more != [] { assert more[|more| - 1] in more; }
    }
  }

  /** Commits do not disturb a session: the new events go to the end of what it has yet to send. */
  lemma AppendKeepsCourse(log: seq<Event>, more: seq<Event>, topic: string, start: int, sent: seq<Event>, s: Session)
    requires OnCourse(log, topic, start, sent, s) && ValidLog(log + more)
    ensures OnCourse(log + more, topic, start, sent, s)
  {
    AboveConcat(log, more, topic, s.cursor);
    AboveConcat(log, more, topic, start);
    NewAbove(log, more, topic, start, s.cursor);
    assert more == [] ==> log + more == log;
    Assoc(sent, Above(log, topic, s.cursor), Above(more, topic, s.cursor));
    hide Above, ValidLog, LastOffset;
  }

  /** A batch is the first hundred events above the cursor, or all there are. */
  lemma ReadTakesBatch(topic: string, s: Session, log: seq<Event>)
    requires s.stage.AtRead?
    ensures var s', above := Read(topic, s, log), Above(log, topic, s.cursor);
            && s'.batch <= above && |s'.batch| == (if |above| < 100 then |above| else 100) && s'.cursor == s.cursor
            && (s'.full <==> |above| >= 100)
            && s'.stage == if above == [] then AtWait else AtSend
  {}

  lemma ReadKeepsCourse(log: seq<Event>, topic: string, start: int, sent: seq<Event>, s: Session)
    requires OnCourse(log, topic, start, sent, s) && s.stage.AtRead?
    ensures OnCourse(log, topic, start, sent, Read(topic, s, log))
    ensures !Read(topic, s, log).full ==> UpToDate(log, topic, Read(topic, s, log))
  {
    hide Above;
  }

  /** A send moves the first event of the batch from what is left to what was sent. */
  lemma SendKeepsCourse(log: seq<Event>, topic: string, start: int, sent: seq<Event>, s: Session)
    requires InOrder(log) && OnCourse(log, topic, start, sent, s) && s.stage.AtSend?
    ensures OnCourse(log, topic, start, sent + [s.batch[0]], Send(s))
    ensures UpToDate(log, topic, s) ==> UpToDate(log, topic, Send(s))
  {
    var a := Above(log, topic, s.cursor);
    assert s.batch[0] == a[0];
    AboveIsComplete(log, topic, s.cursor, a[0]);
    AboveNext(log, topic, s.cursor);
    InLog(log, a[0]);
    hide Above, InOrder;
    assert a == [a[0]] + a[1..];
    assert sent + [a[0]] + a[1..] == sent + a;
    assert s.batch[1..] <= a[1..];
  }

  lemma InLog(log: seq<Event>, e: Event)
    requires InOrder(log) && e in log
    ensures e.offset <= LastOffset(log)
  {}

  lemma SettleKeepsCourse(cfg: Config, log: seq<Event>, topic: string, start: int, sent: seq<Event>, s: Session, offsets: Offsets, m: Moment)
    requires OnCourse(log, topic, start, sent, s) && s.stage.AtSave?
    ensures OnCourse(log, topic, start, sent, SaveIfDue(cfg, s, offsets, m).0)
  {}

  lemma WakeKeepsCourse(log: seq<Event>, topic: string, start: int, sent: seq<Event>, s: Session)
    requires OnCourse(log, topic, start, sent, s) && s.stage.AtWait?
    ensures OnCourse(log, topic, start, sent, Wake(s))
  {}

  /** A session that has nothing left to send has sent exactly the topic's events above its start. */
  lemma DrainedMeansAllSent(log: seq<Event>, topic: string, start: int, sent: seq<Event>, s: Session)
    requires InOrder(log) && OnCourse(log, topic, start, sent, s)
    ensures sent <= Above(log, topic, start) && InOrder(sent)
    ensures s.batch == [] && UpToDate(log, topic, s) ==> sent == Above(log, topic, start)
  {
    AboveIsInOrder(log, topic, start);
    hide Above;
    assert forall i :: 0 <= i < |sent| ==> sent[i] == Above(log, topic, start)[i];
  }
}
