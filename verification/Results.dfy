/** The results of jobs in queue.go: SaveResult, GetResult and the loop of WaitResult. Times are
    instants in nanoseconds; the table keeps them cut to the millisecond, in the order of their
    text. */
module Results {
  import opened Base
  import opened Jobs
  import Calendar

  /** A row of _ganso_results. */
  datatype ResultRow = ResultRow(value: string, expires: Option<int>)

  type Rows = map<string, ResultRow>

  /** GetResult's condition. */
  predicate Available(rows: Rows, job: string, now: int) {
    job in rows && (rows[job].expires.None? || rows[job].expires.value > now)
  }

  /** The upsert of SaveResult. */
  function Saved(rows: Rows, job: string, value: string, ttlSec: int, now: int): Rows {
    rows[job := ResultRow(value, Some(Stamp(now + ttlSec * Calendar.NANOS_PER_SECOND)))]
  }

  class ResultTable {
    var rows: Rows

    constructor ()
      ensures rows == map[]
    {
      rows := map[];
    }

    method SaveResult(job: string, value: string, ttlSec: int, now: int)
      modifies this
      ensures rows == Saved(old(rows), job, value, ttlSec, now)
    {
      var expiresAt := Stamp(now + ttlSec * Calendar.NANOS_PER_SECOND);
      rows := rows[job := ResultRow(value, Some(expiresAt))];
    }

    method GetResult(job: string, now: int) returns (r: Option<string>)
      ensures r == if Available(rows, job, Stamp(now)) then Some(rows[job].value) else None
    {
      var nowStr := Stamp(now);
      if job in rows && (rows[job].expires.None? || rows[job].expires.value > nowStr) { return Some(rows[job].value); }
      return None;
    }
  }

  datatype WaitStage = Checking | Blocked | Returned

  /** One call of WaitResult. */
  class Wait {
    const job: string
    var stage: WaitStage

    constructor (job: string)
      ensures this.job == job && stage == Checking
    {
      this.job := job;
      stage := Checking;
    }

    /** One turn of the loop, up to the wait for the watcher. */
    method Check(table: ResultTable, now: int) returns (result: Option<string>)
      requires stage.Checking?
      modifies this
      ensures stage == if Available(table.rows, job, Stamp(now)) then Returned else Blocked
      ensures result == if stage.Returned? then Some(table.rows[job].value) else None
    {
      result := table.GetResult(job, now);
      stage := if result.Some? then Returned else Blocked;
    }

    method Wake()
      requires stage.Blocked?
      modifies this
      ensures stage.Checking?
    {
      stage := Checking;
    }
  }

  /** A saved result is there for its time to live, to the millisecond, whatever was there before, and
      no other job's result is touched. */
  lemma SavedIsAvailable(rows: Rows, job: string, value: string, ttlSec: int, now: int, t: int)
    ensures var rows', end := Saved(rows, job, value, ttlSec, now), now + ttlSec * 1_000_000_000;
            && job in rows' && rows'[job].value == value && rows' - {job} == rows - {job}
            && (t + 1_000_000 <= end ==> Available(rows', job, Stamp(t)))
            && (Available(rows', job, Stamp(t)) ==> t < end)
            && (forall other :: other != job ==> (Available(rows', other, Stamp(t)) <==> Available(rows, other, Stamp(t))))
  {}
}
