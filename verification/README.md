# Ganso, modelled and proved in Dafny

Ganso keeps a job queue, a cron scheduler, an event stream, notifications, locks and rate limits in
one SQLite database. This project models those components as steps over their tables and proves what
they promise: what one call computes, what every step keeps, and what holds over every run.

`dafny verify dfyconfig.toml` checks the whole project.

## How it is laid out

| files | part of Ganso | form |
|---|---|---|
| `Base`, `Arithmetic`, `Text`, `TextOrder` | Go's error pairs, `strings` and `strconv`, and SQLite's order of text | functions |
| `Calendar`, `CronHorizon` | the Gregorian calendar that `time.Date` and `time.Weekday` use (RFC 3339, Appendices B and C) | functions |
| `FieldSets`, `CronParse`, `CronNext`, `Schedules` | `cron.go` | loops as methods, against functions |
| `CronText` | the grammar of cron expressions and its meaning, on its own | functions |
| `CatchUp`, `Timestamps` | the loop of `tick`, and the two text layouts of time | a method; functions |
| `Jobs`, `JobQueue` | `queue.go`: transitions on the job tables, and the class `Database` that carries them out in place | functions; a class |
| `JobRuns`, `JobTheorems`, `JobEffects`, `ClaimOrder` | runs of the queue by any workers | a state machine |
| `Scheduler`, `SchedulerRuns` | `scheduler.go`: the class `TaskTable`, and runs of ticks by any schedulers | a class; a state machine |
| `MixedRuns` | queue operations and ticks in one run | a state machine |
| `Watcher`, `WakeUps` | `watcher.go`: the class `UpdateWatcher`, and its protocol with `Stream.Subscribe` and `WaitResult` | a class; a state machine |
| `Results` | the result table of `queue.go` and `WaitResult` | classes |
| `Streams`, `Subscriptions`, `Consumers` | `stream.go`: tables, the subscription loop, and a durable consumer through crashes | classes; a state machine |
| `Notifications`, `ListenerRuns` | `notify.go` | classes; a state machine |
| `EpochText`, `Locks`, `RateLimits` | `lock.go` and the leader heartbeat, with seconds kept as text | classes; state machines |

Instants are integers: seconds, or nanoseconds as Go keeps them, since 0001-01-01T00:00:00Z, so that
Go's zero time is 0. The job and notification tables hold times as integers in the order of their
text; the lock and rate-limit tables hold Unix seconds and compare them as the text they are. Clock
readings, fresh ids and whatever an environment decides are parameters. A method that changes a table
in place ends in the state that a transition function of the same name gives, and the theorems are
about those functions and the runs they make up.

## What is false of the code

Some properties one would expect hold only under a condition. Each is stated with its exact condition
and with an input or a run at which it fails.

- A step near the largest integer wraps in `parseField`: `5/9223372036854775807` is a minute field that
  also selects minute 3. A field means its progressions if and only if no first addition of a step
  overflows (`CronText.FieldReadsAsWritten`, `CronParse.FieldMeaning`, `CronParse.WrappingStepIsAccepted`). The search for the next
  firing minds this in the months only: it asks `time.Date` for months 1 to 12 from every start if and
  only if no step of its months overflows or December is one of them, and then it is right
  (`CronNext.NextAfter`, `CronNext.StaysInCalendarWhen`, `Schedules.CronMeaning`). Months
  `5/9223372036854775807` make it ask for a month near the least integer, months
  `12,5/9223372036854775807` do not (`Schedules.WrappedMonthsLeaveCalendar`,
  `Schedules.DecemberKeepsSearchSafe`).
- An interval wraps in `parseInterval` if and only if its nanoseconds do not fit 64 bits: 106752 days
  parse to a negative interval (`Schedules.IntervalMeaning`, `Schedules.LongIntervalIsNegative`).
- Firing a task moves its boundary up if and only if the schedule fires again, or is a cron schedule
  that never does and the boundary lies before the zero time. 2^55 seconds parse to an interval of 0,
  which fires one boundary again and again (`CatchUp.MovesUpExactlyWhen`, `Schedules.LongIntervalIsZero`,
  `CatchUp.ZeroIntervalFiresAgain`).
- `Every(d)` is restored from its expression if and only if d is a positive whole number of seconds
  (`Schedules.EveryParsesBack`).
- The catch-up loop of `tick` ends if and only if the schedule fires again or its first step is enough
  (`CatchUp.LoopEndsExactlyWhen`). A task for 30 February is accepted, due at once, and keeps the
  scheduler in the loop (`Schedules.February30NeverFires`, `Scheduler.February30HoldsTheScheduler`).
- RFC3339Nano text is not ordered like time within one second, neither by itself
  (`Timestamps.NanoTextOrder`, `Timestamps.DueExactlyWhen`, `Timestamps.TenthIsLate`) nor against the fixed layout
  (`Timestamps.MixedTextOrder`).
- A boundary beyond the year 9999 does not parse and sorts as text before this century: its task fires
  at once and the boundary moves back (`Scheduler.YearTenThousandFiresEarly`). In ordinary years no
  boundary gets there (`SchedulerRuns.NextFireIsPrintable`, `SchedulerRuns.TickKeepsPrintable`).
- A window admits min(limit, calls) if and only if the limit is at least 1, or is 0 and there is no
  call: the first call passes whatever the limit (`RateLimits.WindowAdmits`,
  `RateLimits.ZeroLimitAdmits`).
- A sweep may reset a window that is still running. It is safe if and only if its cutoff does not sort
  after the window's start as text; with equally many digits in both, at every moment if and only if it
  spares the last perSec - 1 seconds (`RateLimits.SweepIsSafeWhen`, `RateLimits.SweepsMustBeOld`,
  `RateLimits.FarSweepResetsWindows`).
- The scheduler's heartbeat does not ask who owns the lock. Leases hold in every run if and only if no
  lock on the name asks for more than the 60 seconds of the heartbeat (`Locks.TtlsMustMeet`,
  `Locks.LeaderTtlIsLongest`, `Locks.LateHeartbeatCutsLease`), as long as the text of expiries holds.
- Seconds are compared as text. A lease withstands every other attempt up to its expiry if and only if
  its expiry has as many digits as the present, or is all nines but perhaps for its last digit
  (`EpochText.TextHoldsExactly`, `Locks.LeaseWithstandsWhen`). A lease of 285 years lapses at once
  (`Locks.LongLeaseLapsesAtOnce`).
- Day of month and weekday are combined with AND, unlike in traditional cron (`CronNext.Fires`,
  `Schedules.CronMeaning`).

## Main results

- Cron: the search returns the least matching second, or the zero time exactly for a schedule that never
  fires (`CronNext.NextAfter`), within a hundred years (`CronNext.FiringWithinCentury`); an expression
  fires in exactly the seconds that its text names (`CronText.FiresAsWritten`,
  `CronText.FieldReadsAsWritten`, `Schedules.CronMeaning`).
- Text of instants: `Timestamps.NanoTextOrder`, `Timestamps.MixedTextOrder`.
- Catch-up: `CatchUp.CaughtUpIsCatchUp`, `CatchUp.LoopEndsExactlyWhen`, and over runs of any schedulers
  each boundary at most once (`SchedulerRuns.BoundariesIncrease`), with the job that the task asks for
  (`SchedulerRuns.FireAllEffect`).
- Queue: conservation over every run, with ticks in it (`JobTheorems.Conservation`,
  `MixedRuns.ConservationWithTicks`); how a lease changes hands and that its old holder is fenced off
  (`JobTheorems.LeaseHandover`, `JobTheorems.Fenced`); bounded attempts (`JobTheorems.AttemptBound`);
  the claim order (`ClaimOrder.ClaimBatchPicksFirst`); batches against single calls (`ClaimOrder.BatchIsSingles`, `ClaimOrder.AckBatchIsAcks`); deadlines
  (`ClaimOrder.NextClaimAtIsSound`).
- Wake-ups: no subscriber sleeps over a commit (`WakeUps.NoLostWakeUp`, `WakeUps.BlockedMeansDone`).
- Streams: nothing is skipped and little is repeated through crashes (`Consumers.NothingIsSkipped`,
  `Consumers.FewEventsRepeat`, `Consumers.CancelSavesAll`).
- Notifications: `ListenerRuns.DeliveredInOrder`.
- Locks: `Locks.LeaseHolds`, `Locks.ReleasedStaysFree`, `Locks.TtlsMustMeet`, `Locks.LeaseWithstandsWhen`.
- Rate limits: `RateLimits.WindowAdmits`, `RateLimits.SweepIsSafeWhen`.

The table lists these with the operations and lemmas they rest on.

## Model

| member | source | states |
|---|---|---|
| Calendar.FieldsOfDate | cron.go:239-283 | the date that time.Date builds from in-range fields has those fields |
| Calendar.DateOfFields | cron.go:231-283 | every instant is the date of its own fields, and they are in range for its month |
| Calendar.WeekdayMatchesRfc3339 | cron.go:244 | the weekday counted from the day number is that of the formula in RFC 3339, Appendix B |
| FieldSets.Contains | cron.go:220-223 | the binary search answers membership exactly |
| FieldSets.NextOrFirst | cron.go:210-217 | the least member not below the current value, or the least of all with `wrapped` exactly when there is none |
| CronHorizon.FourYearsOn | cron.go:229-231 | four years on, between leap years, a date moves five weekdays on |
| CronHorizon.WeekdayInCentury | cron.go:229-231 | every date that exists, 29 February included, falls on every weekday within the hundred years after any year |
| CronNext.JumpMonth | cron.go:232-241 | the jump to the next matching month, over the year's end too, strictly advances and passes over no firing |
| CronNext.StaysInCalendarWhen | cron.go:232-241 | from every start the search asks time.Date for months 1 to 12 only, if and only if the set's months are real or December is one of them |
| CronNext.DecemberAsksForFirst | cron.go:233-241 | a search in a December that is not selected asks for the first month of the set, whatever that is |
| CronNext.JumpDay | cron.go:243-248 | the jump to the next day strictly advances and passes over no firing |
| CronNext.JumpHour | cron.go:250-261 | both jumps of the hour step strictly advance and pass over no firing |
| CronNext.JumpMinute | cron.go:263-274 | both jumps of the minute step strictly advance and pass over no firing |
| CronNext.JumpSecond | cron.go:276-287 | both jumps of the second step strictly advance and pass over no firing |
| CronNext.FiringWithinCentury | cron.go:229-231 | a schedule with a date that exists fires after any instant, no later than a hundred years on |
| CronNext.SatisfiableMeansFires | cron.go:229-294 | having a month and day that exist together is the same as firing again after any instant, and as firing at all |
| CronNext.CapHidesNothing | cron.go:229-294 | a search that passes the cap has met a schedule that never fires |
| CronNext.NextAfter | cron.go:226-295 | the search ends, for every set of fields whose months are real or have December among them; it returns the least matching second after the start, and the zero time exactly for a schedule that never fires |
| CronText.ItemParses | cron.go:153-193 | a part of any form, `*`, `a` or `a-b`, each with a step or without, is read as its first value, its last value and its step, and is refused for a step of zero and for values out of range or order only |
| CronText.StepBelongsToRange | cron.go:156-171 | whatever the texts, a step is read after the slash and belongs to the range before it, star included; a bad step is refused first |
| Text.AtoiReadsDecimals | cron.go:161-186 | numbers are read exactly from the decimals of 64-bit integers, with an optional sign and leading zeros |
| CronParse.ParseField | cron.go:150-206 | the loops arrive at the sorted set of the values visited, or at the first part's error |
| CronParse.VisitedIsProgression | cron.go:195-197 | while the first addition fits, the loop visits exactly the arithmetic progression up to the end |
| CronParse.FieldMeaning | cron.go:150-206 | the result is in order, has a value within the bounds and none above; it is the union of its parts' progressions if and only if no first addition overflows, and begins near the least integer otherwise |
| CronText.FieldIsAcceptedWhen | cron.go:150-206 | a field is accepted if and only if each of its parts has a positive step and values in order within the bounds |
| CronText.FieldReadsAsWritten | cron.go:150-206 | the values come in order; they are every step-th value of each part as written, if and only if no first addition overflows |
| CronText.StarWithStep | cron.go:173-197 | `*/n` selects exactly the values v in the bounds for which v less the lowest is a multiple of n |
| CronParse.WrappingStepIsAccepted | cron.go:156-197 | the witness: a minute field that selects a minute it does not name |
| Schedules.ParseCron | cron.go:99-147 | the five-field and the six-field form, or the first field's error |
| Schedules.AcceptedWhen | cron.go:99-147 | an expression is accepted if and only if it has five or six fields and each is accepted within its bounds |
| Schedules.CronMeaning | cron.go:99-147 | a parsed expression is well formed if and only if no step overflows, and then it fires in exactly the seconds that every field of its text selects; it is safe to search, and the search stays within the months of the calendar, if and only if no step of its months overflows or December is among them |
| CronText.FiresAsWritten | cron.go:99-295 | from text to firing: an expression written in the grammar is accepted, can be searched, and fires in exactly the seconds whose fields its text names, second 0 if it has no seconds field |
| Schedules.WrappedMonthsLeaveCalendar | cron.go:232-241 | the witness: an accepted expression with which a search in December asks for a month near the least integer |
| Schedules.DecemberKeepsSearchSafe | cron.go:232-241 | the same overflow with December among the months: accepted, and the search stays in the calendar |
| Schedules.ParseSchedule | cron.go:40-46 | interval or cron by prefix, after trimming |
| Schedules.SpaceAroundIsIgnored | cron.go:41 | space around an expression changes nothing |
| Text.TrimSpaceDropsSpace | cron.go:41 | trimming takes space away from both ends and nothing else |
| Schedules.IntervalMeaning | cron.go:64-96 | an interval is its count of units if and only if that many nanoseconds fit 64 bits |
| Schedules.UnitsAreRead | cron.go:79-94 | a count of s, m, h or d is that many times 1, 60, 3600 or 86400 seconds, in 64 bits |
| Schedules.OtherUnitsAreRefused | cron.go:79-92 | any other letter is refused as a unit |
| Schedules.SpaceAfterEveryIsIgnored | cron.go:65-66 | nor does space between "@every" and the count |
| Schedules.LongIntervalIsNegative | cron.go:82-90 | the witness: 106752 days are accepted and stand for a negative interval |
| Schedules.LongIntervalIsZero | cron.go:82-90 | the witness: 2^55 seconds are accepted and stand for an interval of 0 |
| Schedules.StoredScheduleParsesBack | scheduler.go:74 | storing a parsed schedule's expression and parsing it again gives back the same schedule |
| Schedules.EveryParsesBack | cron.go:58-61 | the expression of Every(d) gives back Every(d) if and only if d is a positive whole number of seconds |
| Schedules.February30NeverFires | cron.go:99-147 | the witness: midnight on 30 February is accepted and never fires |
| CatchUp.NextAfter | cron.go:37 | the next firing of either kind of schedule, the zero time for one that never fires |
| CatchUp.NextFireIsFirst | scheduler.go:339 | for a schedule that recurs it is the first firing after the instant |
| CatchUp.FiringsCarryOver | scheduler.go:339-342 | going on from a firing changes none of the later firings, intervals included |
| CatchUp.CaughtUpIsCatchUp | scheduler.go:339-342 | the loop arrives at the least firing after the stored boundary that is not before now |
| CatchUp.Advance | scheduler.go:339-342 | the loop ends, there, for every schedule on which it does end |
| CatchUp.IntervalKeepsPhase | scheduler.go:339-342 | for an interval that is the least positive whole number of intervals that reaches now: its phase never drifts |
| CatchUp.LoopEndsExactlyWhen | scheduler.go:339-342 | some number of steps reaches now if and only if the schedule recurs, or one step does: from the zero time for cron, from the boundary plus the interval otherwise |
| CatchUp.MovesUpExactlyWhen | scheduler.go:339-342 | the loop ends above the boundary it started at if and only if the schedule recurs, or is a cron schedule that never fires and the boundary lies before the zero time |
| CatchUp.ZeroIntervalFiresAgain | scheduler.go:339-342 | the witness: with an interval that wrapped to 0 it ends at the boundary it started at |
| Timestamps.MillisTextOrder | queue.go:66-73 | text in the fixed layout orders exactly as instants cut to the millisecond (RFC 3339, section 5.1) |
| JobEffects.StampsOrderAsText | queue.go:66-73 | the integers that stand for the times of jobs are equal and in order exactly as their text is |
| Timestamps.MillisText | queue.go:66-73 | the text of an instant in the fixed layout, field by field and separator by separator |
| Timestamps.NanoTextOrder | scheduler.go:265 | RFC3339Nano text identifies the instant, orders as time when whole seconds differ, and within a second if and only if the earlier fraction is no prefix of the later |
| Timestamps.DueExactlyWhen | scheduler.go:282 | exactly when the text comparison of the tick calls a boundary due |
| Timestamps.TenthIsLate | scheduler.go:282 | the witness: in any second, a boundary at .1 is not due at .12 |
| Timestamps.DueWithinASecond | scheduler.go:282 | never a full second early, never a full second late, and never early at all for boundaries on whole seconds |
| Timestamps.MixedTextOrder | queue.go:223-224 | RFC3339Nano text against the fixed layout: at most it if and only if its millisecond is, save for a fraction cut short by trailing zeros in the same second |
| Timestamps.MixedWithinASecond | queue.go:223-224 | a job of a tick is taken less than a millisecond early and less than a second late |
| JobQueue.Database.InsertJob | queue.go:122-143 | the new row and its notification, or a key violation and nothing |
| JobQueue.Database.Enqueue | queue.go:100-145 | the same, with the run time and the expiry that the options give |
| JobQueue.Database.SelectOrdered | queue.go:216-240 | the rows in the order of the ORDER BY clause |
| JobQueue.Database.UpdateReturning | queue.go:246-270 | the claimed rows, and RETURNING's rows in no order |
| JobQueue.Database.InOrder | queue.go:275-284 | the claims back in the order of the ids |
| JobQueue.Database.ClaimBatch | queue.go:205-285 | select, update and reorder end in the batch transition, table and answer |
| JobQueue.Database.Ack | queue.go:399-418 | the row is deleted exactly for the holder of an unexpired claim |
| JobQueue.Database.AckBatch | queue.go:426-453 | one statement for many ids, with its count |
| JobQueue.Database.InsertDead | queue.go:86-94 | the dead row, or the error of a taken key |
| JobQueue.Database.Retry | queue.go:462-547 | back to pending, or to dead in one transaction, or nothing |
| JobQueue.Database.Fail | queue.go:555-604 | to dead in one transaction, or nothing |
| JobQueue.Database.Heartbeat | queue.go:612-634 | the claim expiry is moved for its holder only |
| JobQueue.Database.Cancel | queue.go:642-661 | the row is deleted whatever its state |
| JobQueue.Database.SweepExpired | queue.go:724-772 | every expired row to dead in one transaction, or a rollback |
| JobQueue.Database.NextClaimAt | queue.go:885-923 | the least deadline, if there is one |
| JobEffects.EnqueuedJobIsClaimable | queue.go:103-120 | a new job can be claimed from its delay, its run time or now on, to the millisecond, until its time to live is over |
| JobEffects.EnqueueActs | queue.go:122-143 | the new row is what the call asked for, pending, unheld and unattempted, its queue's channel is told, and nothing else changes; a taken key changes nothing |
| JobEffects.AckActs | queue.go:399-418 | Ack succeeds exactly while the row names the worker and the claim runs, removes that job and touches no other |
| JobEffects.FailActs | queue.go:555-604 | the same for Fail, and the dead row has the reason and, field by field, everything the job had |
| JobEffects.RetryActs | queue.go:462-547 | the same for Retry: pending at the new run time without a holder, otherwise the same job, and announced as a retry; or dead when no attempt is left |
| JobEffects.HeartbeatActs | queue.go:612-634 | after a heartbeat the worker holds the job exactly until the new expiry, and nothing else about it has changed |
| JobEffects.CancelActs | queue.go:642-661 | the job is gone, nothing is buried and no other job is touched |
| JobEffects.SweepActs | queue.go:724-772 | a sweep kills exactly the queue's jobs whose time to live is over, keeps everything they had, field by field, and leaves every other row alone |
| JobEffects.TakenKeyChangesNothing | queue.go:86-94 | a move to dead fails exactly when the key is there already, and then leaves both tables alone |
| ClaimOrder.OrderedByPriority | queue.go:219-228 | along the ordered ids priorities do not rise, at equal priority run times do not fall, and at equal both the ids rise |
| ClaimOrder.ClaimBatchPicksFirst | queue.go:216-240 | a batch is n claimable jobs, or all there are: in that order, and every claimable job left out has a lower priority than each of them, or the same and a later run time, or the same and a higher id |
| ClaimOrder.ClaimBatchReturnsRows | queue.go:246-284 | the answer lists, in that order, the rows as the update left them, with the worker, the lease and one attempt more and otherwise the same job; no other row changed |
| ClaimOrder.BatchIsSingles | queue.go:292-301 | ClaimBatch(n) is n ClaimOnes at one instant, in its answer and in the table |
| ClaimOrder.AckBatchIsAcks | queue.go:426-453 | AckBatch is its Acks one by one, table and count, with repeated ids too |
| ClaimOrder.NextClaimAtIsSound | queue.go:885-923 | with nothing claimable and no writes, nothing becomes claimable before the deadline, and without one nothing ever does |
| ClaimOrder.NextClaimAtIsKept | queue.go:885-923 | a deadline is that of a job whose time to live is not over, and as far as that goes the job is claimable at it, or right after it if a claim has to lapse |
| JobRuns.StepKeepsInv | queue.go:100-772 | every operation keeps the ledger's invariant, and none meets a taken key |
| JobTheorems.Conservation | queue.go:507-603 | in every run each id enqueued is in exactly one of live, dead, acked and cancelled, a job keeps what identifies it, and no statement ever violates a key |
| JobTheorems.OutcomesAreFinal | queue.go:86-94 | no operation revokes an outcome, so a job gets at most one |
| JobTheorems.AttemptBound | queue.go:507-531 | attempts count the claims, a pending job has attempts left, and a job is claimed from pending, or retried, at most max_attempts times |
| JobTheorems.OnlyClaimsGrant | queue.go:246-270 | a claim, and nothing else, names a new holder |
| JobTheorems.HolderChanges | queue.go:219-228 | a live row stops naming its holder only by that worker's retry or by a claim after its expiry |
| JobTheorems.LeaseHandover | queue.go:205-285 | over any run: whoever lost a job to another held it up to a first step that took it away, and that step was its own retry or a claim after its claim, as moved by heartbeats, had expired |
| JobTheorems.Fenced | queue.go:399-634 | from then on every Ack, Retry, Fail and Heartbeat of the old worker answers false and changes nothing, and no AckBatch of it touches the job, until it claims the job again |
| Scheduler.TaskTable.Add | scheduler.go:48-80 | the task replaces one of its name, enabled, with its first firing after now |
| Scheduler.TaskTable.Remove | scheduler.go:83-96 | the task is gone; true if there was one |
| Scheduler.TaskTable.Pause | scheduler.go:100-113 | disabled; true if it was enabled |
| Scheduler.TaskTable.Resume | scheduler.go:117-155 | enabled with its first firing after now, or unchanged |
| SchedulerRuns.TaskStepActs | scheduler.go:48-155 | in runs, Add, Remove, Pause and Resume do to the one task what they do to the table, and leave jobs and other tasks alone |
| Scheduler.TaskTable.SelectDue | scheduler.go:279-300 | the enabled tasks whose text is due, each once, in any order |
| Scheduler.TaskTable.FireTask | scheduler.go:302-350 | one job and one boundary moved on, from now if the stored one does not parse, or the error |
| Scheduler.TaskTable.Tick | scheduler.go:264-353 | all due tasks in one transaction, or none |
| Scheduler.TaskTable.Soonest | scheduler.go:356-381 | the enabled boundary with the least text, or the zero time if there is none or it does not parse |
| Scheduler.SoonestNamesTheSecond | scheduler.go:356-381 | with years of four digits it is a task's boundary, in the whole second of the earliest one |
| Scheduler.February30HoldsTheScheduler | scheduler.go:339-342 | the witness: such a task gets the zero time for a boundary, is due at once, and no number of steps reaches now |
| Scheduler.YearTenThousandFiresEarly | scheduler.go:335-342 | the witness: a boundary in the year 10000 is due from the year 2000 on and firing it moves it back |
| SchedulerRuns.FireAllEffect | scheduler.go:302-350 | a tick fires each due task once: one job with its own id, with the task's queue, payload and priority and three attempts, to be had from the tick on until the task's time to live is over; a notice on that queue's channel; the boundary moved to where the catch-up ends; and nothing else is touched |
| SchedulerRuns.FireOneEffect | scheduler.go:302-350 | the same for one task, with the one notice it adds |
| SchedulerRuns.TickIsAtomic | ganso.go:114-130 | a failed tick changes nothing, and only enabled tasks that are due are fired |
| SchedulerRuns.StepAdvances | scheduler.go:330-349 | a step fires at most the current boundary and then moves it to the least firing after it, or after now if it does not parse, that is not before the tick's clock |
| SchedulerRuns.BoundariesIncrease | scheduler.go:264-353 | between Add, Remove and Resume of a task that recurs, under ticks of any number of schedulers with or without the lock, the boundaries fired, read back from text of four-digit years, strictly increase: each at most once |
| SchedulerRuns.NextFireIsPrintable | scheduler.go:59-60 | the boundary that Add or Resume stores between the years 317 and 9507 has a year of four digits |
| SchedulerRuns.TickKeepsPrintable | scheduler.go:339-349 | so has every boundary that a tick in those years leaves |
| MixedRuns.TickIsEnqueues | scheduler.go:312-327 | to the job tables a tick is a run of Enqueues with fresh ids, at the clock of its transaction |
| MixedRuns.MixedRunIsTraced | scheduler.go:264-353 | every run that mixes queue operations, ticks and task changes is, to the job tables, a valid run of the queue, however early ticks read the clock |
| MixedRuns.ConservationWithTicks | scheduler.go:312 | in every such run each id enqueued, by a worker or by a tick, is in exactly one of live, dead, acked and cancelled, and no statement ever violates a key |
| Watcher.UpdateWatcher.Subscribe | watcher.go:47-56 | a new id with an empty channel |
| Watcher.UpdateWatcher.Unsubscribe | watcher.go:56-61 | that subscription is gone |
| Watcher.UpdateWatcher.NotifyAll | watcher.go:77-86 | every channel holds a token, whatever it held |
| Watcher.UpdateWatcher.Poll | watcher.go:172-194 | tokens are sent exactly when the version differs from the last one |
| Watcher.UpdateWatcher.TryReceive | stream.go:182-191 | a token is taken once |
| WakeUps.StepKeepsInv | watcher.go:47-194 | every step of committers, watcher and subscribers keeps the protocol's invariant |
| WakeUps.FanOutReachesAll | watcher.go:77-86 | the sends of notifyAll, made one by one in any order and undisturbed, give every subscriber a token and change nothing else |
| WakeUps.NoLostWakeUp | watcher.go:77-86 | in every run from the baseline read on, a subscriber blocked on an empty channel has read every version the watcher has announced, if its first read came after the baseline |
| WakeUps.BlockedMeansDone | stream.go:111-192 | once the watcher has announced the last commit, a blocked Stream.Subscribe has sent exactly its topic's events above the offset it asked for, or above its consumer's saved offset if it is named and asked for none, and a blocked WaitResult has no result to return |
| Results.ResultTable.SaveResult | queue.go:779-806 | the upsert of a result with its expiry |
| Results.ResultTable.GetResult | queue.go:815-845 | the value, if there is one that has not expired |
| Results.Wait.Check | queue.go:853-878 | a turn of WaitResult returns the result or goes to wait |
| Results.SavedIsAvailable | queue.go:779-845 | a saved result is there until its time to live is over, to the millisecond, and no other result is touched |
| Streams.AboveIsComplete | stream.go:251-283 | the events above an offset are all and only the topic's rows with a higher offset |
| Streams.AboveNext | stream.go:154-157 | moving the cursor to the first of them leaves exactly the others above it |
| Streams.StreamTable.Publish | stream.go:30-60 | the event goes to the end with a higher offset than any before, and its channel is notified |
| Streams.StreamTable.ReadBatch | stream.go:251-283 | the first events above the offset, up to the limit |
| Streams.Save | stream.go:201-217 | a stored offset never moves back and no other consumer's moves |
| Streams.StreamTable.SaveOffset | stream.go:201-217 | the upsert ends in that table, or fails and leaves it |
| Streams.StreamTable.GetOffset | stream.go:221-247 | the saved offset, 0 if there is none |
| Subscriptions.Subscription.constructor | stream.go:130-145 | the session begins at the saved offset of a named consumer, or at the offset asked for |
| Subscriptions.SessionStart | stream.go:130-139 | a session starts at the offset asked for, but a named consumer that asks for none at its saved offset |
| Subscriptions.Subscription.ReadNext | stream.go:147-151 | a batch of up to a hundred events above the cursor |
| Subscriptions.ReadTakesBatch | stream.go:147-151 | a batch is the first hundred events above the cursor, or all there are |
| Subscriptions.Subscription.SendOne | stream.go:154-168 | one event sent, the cursor on it, and a save when one is due, whether it works or not |
| Subscriptions.SaveActs | stream.go:159-168 | a save is tried for a named consumer when enough events or enough time have passed; a save that works keeps the higher of the stored offset and the cursor and touches no other consumer |
| Subscriptions.Subscription.SendBatch | stream.go:154-176 | the batch is sent in order, up to where the context is done |
| Subscriptions.Subscription.Cancel | stream.go:183-189 | a last save if anything was sent since the one before, whether it works or not |
| Subscriptions.ExitActs | stream.go:171-189 | the last save is tried for a named consumer that has sent anything since the one before |
| Subscriptions.AppendKeepsCourse | stream.go:143-193 | whatever is committed between batches goes to the end of what a session has yet to send |
| Subscriptions.ReadKeepsCourse | stream.go:147-151 | a batch that is not full leaves nothing unread |
| Subscriptions.SendKeepsCourse | stream.go:154-158 | what was sent and what lies above the cursor are together what lay above the start |
| Subscriptions.DrainedMeansAllSent | stream.go:178-192 | what was sent is a strictly increasing prefix of the topic's events above the start, and all of them once nothing is left |
| Consumers.StepKeepsInv | stream.go:111-217 | commits, batches, sends, saves, cancellations and crashes keep the consumer's invariant |
| Consumers.NothingIsSkipped | stream.go:130-143 | over every run with crashes, restarts and failed saves, the events sent are exactly the topic's committed events up to the highest one sent |
| Consumers.SessionSendsInOrder | stream.go:143-193 | each session sends the topic's events above its start in strictly increasing order, without gap or repeat, and all of them once it waits up to date |
| Consumers.FewEventsRepeat | stream.go:159-168 | while saves work, a session repeats at most max(1, saveEveryN) events, and a crash at any point would not make the next one repeat more |
| Consumers.CancelSavesAll | stream.go:171-189 | while saves work, nothing that a cancelled session sent lies above the saved offset, so no later session repeats it |
| Notifications.NotificationTable.Notify | schema.go:23-28 | a fresh id above every id ever used |
| Notifications.NotificationTable.MaxNotificationId | notify.go:73-93 | the highest id of the channel, 0 if it has none |
| Notifications.NotificationTable.Poll | notify.go:131-167 | the lowest id of the channel above the cursor, if there is one |
| Notifications.NotificationTable.SelectNewest | notify.go:222-228 | the ids with fewer than n above them |
| Notifications.NewestIsTop | notify.go:219-235 | those are n ids, or all if there are fewer, and above all others |
| Notifications.NotificationTable.Prune | notify.go:199-240 | both phases, the second counting what the first left |
| Notifications.PruneKeeps | notify.go:199-240 | a row survives, unchanged, if and only if it is not older than asked and fewer than maxKeep rows that are not older either have higher ids |
| Notifications.Listener.constructor | notify.go:41-69 | the cursor starts at the channel's highest id |
| Notifications.Listener.TryNext | notify.go:97-113 | the next notification and the cursor on it, nothing, or the error of a closed listener |
| ListenerRuns.DeliveredInOrder | notify.go:97-166 | over any interleaving of notifications, prunes and polls, the ids delivered strictly increase, lie above all that existed at Listen, and each later id is delivered once unless a prune removed it before the cursor came to it |
| ListenerRuns.EmptyPollMeansAllDelivered | notify.go:131-167 | a poll that finds nothing has left nothing out |
| ListenerRuns.NewIdsAreAhead | notify.go:205-239 | whatever was pruned, a new notification lies above the cursor and is the next one found |
| Locks.LockDatabase.TryLockOnce | lock.go:38-98 | delete, insert or ignore, look and roll back end in the lock transition |
| Locks.TtlSeconds | lock.go:44-47 | whole seconds, cut, and 60 for less than one second |
| Locks.LockDatabase.ReleaseLock | lock.go:23-35 | the row is deleted for its owner only |
| Locks.ReleaseFrees | lock.go:23-35 | a release by the owner leaves no row, and whoever asks then has a full lease; a release by another changes nothing; no other name is touched |
| Locks.LockDatabase.Beat | scheduler.go:245-261 | the expiry is moved whoever owns the row |
| EpochText.FewerDigitsSortLater | lock.go:49-56 | the witness: with different numbers of digits the later second may sort first |
| EpochText.TextHoldsExactly | lock.go:49-56 | a time sorts before no second from now up to itself if and only if it has as many digits as now, or is all nines but perhaps for its last digit |
| Locks.LockOutcome | lock.go:38-98 | an attempt is refused exactly while another owner's lease runs, and then changes nothing; a grant is a full lease unless one was running |
| Locks.OwnerChanges | lock.go:23-93 | a row stops being its owner's if and only if that owner releases it or another asks after the expiry |
| Locks.FirstLoss | lock.go:49-93 | over any run: the owner held the row up to the step at which it released it, or another took it after the expiry it had then, heartbeats included |
| Locks.ReleasedStaysFree | lock.go:23-98 | over any run: a released lock stays free until somebody asks, and the first to ask has a full lease |
| Locks.LeaseKept | scheduler.go:245-261 | with locks for at most the TTL of the name's heartbeats, if it has any, no step shortens a running lease whose text holds, stale heartbeats and repeated locks included |
| Locks.LeaseHolds | lock.go:38-98 | then, until its expiry, while that text holds and unless its owner releases it, a lease holds: the owner keeps the row and every attempt of another is refused |
| Locks.LeaseWithstandsWhen | lock.go:49-56 | a lease withstands every attempt of another up to its expiry if and only if the text of its expiry holds |
| Locks.SteadyDigitsAreEnough | lock.go:49-56 | it holds throughout a run in which no second gains a digit within the TTL |
| Locks.LateHeartbeatCutsLease | scheduler.go:252-258 | the witness: whoever locked for the heartbeat's TTL and lost the lock cuts a longer lease short, and a third owner takes it while it should run |
| Locks.TtlsMustMeet | scheduler.go:252-258 | leases whose text holds are kept in every run if and only if no lock asks for more than the heartbeats |
| Locks.LeaderTtlIsLongest | scheduler.go:194-203 | for the scheduler's lock: if and only if no lock on its name asks for more than 60 seconds |
| Locks.LongLeaseLapsesAtOnce | lock.go:49-56 | the witness: a lease of 285 years is granted and lapses in the same second |
| RateLimits.RateLimiter.TryTake | lock.go:161-194 | the upsert's table, and whether it changed a row; an error for a window of no seconds |
| RateLimits.RateLimiter.SweepOld | lock.go:198-213 | the windows that start too long ago are gone, and counted |
| RateLimits.SweepRemoves | lock.go:198-213 | of all names, the windows whose start sorts before the cutoff go and the other counts stay |
| RateLimits.CurrentWindow | lock.go:167-168 | the present lies in one window, the one the upsert computes |
| RateLimits.RunKeepsInv | lock.go:161-213 | over every run, each window has admitted its allowance or all its calls, and its row says how many |
| RateLimits.WindowAdmits | lock.go:161-194 | while sweeps spare the current window, every window admits exactly min(max(1, limit), calls made in it), which is min(limit, calls) if and only if the limit is at least 1, or is 0 without a call |
| RateLimits.ZeroLimitAdmits | lock.go:168-171 | the witness: a limit of 0 admits a call |
| RateLimits.SpanAdmits | lock.go:161-194 | any perSec seconds, aligned or not, admit at most twice the limit |
| RateLimits.SweepIsSafeWhen | lock.go:198-213 | windows keep to their limit in every run with sweeps of this age at this moment if and only if those spare the current window |
| RateLimits.SweepsMustBeOld | lock.go:198-213 | digits permitting, a sweep is safe at every moment if and only if it spares the last perSec - 1 seconds |
| RateLimits.FarSweepResetsWindows | lock.go:198-213 | the witness: a sweep of 800 million seconds resets the windows of 2025 |

## Left out

- Time zones: NextAfter is modelled at a fixed offset, UTC, which is what `tick` uses because it parses times that end in Z; Add and Resume start from a local time.
- CronNext.NextAfter: asks for months from 1 to 12 or December among them, without which the search leaves the calendar from some start (CronNext.StaysInCalendarWhen); what time.Date, whose seconds have 64 bits, makes of a month near the least integer is not modelled.
- Two handles: all job operations go through one `Database`, whose mutex makes ClaimBatch atomic; two processes can interleave inside it.
- JobRuns.StepKeepsInv: timestamps of jobs are milliseconds; a tick's job has RFC3339Nano text, so it may be claimable a millisecond earlier or up to a second later in the code than in the model, as Timestamps.MixedTextOrder says.
- Scheduler.TaskTable.FireTask: a stored boundary is text that the code wrote, kept as the instant it was written from; rows edited by other programs are not modelled. The job's creation time is the tick's reading, not the database's.
- Scheduler.TaskTable.Tick: needs due tasks on which the loop ends, without which the code does not return (CatchUp.LoopEndsExactlyWhen).
- SchedulerRuns.BoundariesIncrease: asks that the task recur, without which firing does not move a boundary up (CatchUp.MovesUpExactlyWhen, CatchUp.ZeroIntervalFiresAgain), and that the boundaries fired have years of four digits (Scheduler.YearTenThousandFiresEarly).
- Job ids are numbers in the order of their text, and fresh, as UUIDs are assumed to be. Payloads are text; marshalling is not modelled.
- Locks.LockDatabase.TryLockOnce: one attempt; the retry loop of Lock and its timer are not modelled, and a missing owner is a fresh one.
- Schedules.EveryParsesBack: `int(d.Seconds())` is exact truncation here; for very long durations that are no whole seconds the code's float64 may round up.
- Schedules.IntervalMeaning: parseInterval looks at characters here, at bytes in the code; they differ only for a unit outside ASCII, which both refuse, with another error.
- Consumers.NothingIsSkipped: one named consumer with fromOffset 0; two sessions of one name at a time are not modelled.
- WakeUps.NoLostWakeUp: starts at the watcher's baseline read; reconnects, the file identity check and reads before the baseline are not modelled. `data_version` is a counter of commits.
- Liveness: timers, fallback polls, idle waits and context deadlines; states and quiescence are proved instead.
- SQLite itself, its pools, pragmas and schema bootstrap: keys, AUTOINCREMENT, rollback and one writer at a time are primitives.
- `worker.go`, `outbox.go`, `options.go`: user callbacks, back-off and setters.
- GetJob, List, Crontab and the Claims iterators: plain reads or thin wrappers.
