# TimerQueue: a verified model of the timeforrust deadline queue

The timeforrust crate is an in-process timer scheduler. A `TimerQueue` holds an
ordered map from absolute wake instant to a timer record (identity, period,
callback), a counter that hands out identities, and a stop flag. Callers
schedule one-shot, periodic or custom-cadence timers, cancel them, change their
period, clear the queue and ask about it. A single worker repeatedly looks at the
earliest deadline. It waits while nothing is due. When the deadline is due it
removes the record and, for a periodic timer, puts it back one period after the
deadline that expired.

This project models that state machine in Dafny and proves its contracts.

- `deadlines.dfy`, module `Deadlines`: the queue as a value (`map<nat, Timer>`,
  instant to identity and period). It holds the least-key helper, the effect of
  cancelling and of changing a period, and the worker's decision and effect for
  one pass (`Decide`, `Fire`). `Trace` and `Replay` give the worker loop over a
  sequence of wake-up instants. Lemmas cover the invariant, firing order and
  drift.
- `timer_queue.dfy`, module `Scheduler`: the class `TimerQueue` with the fields
  `timers`, `nextId` and `stop`. It has one method per operation of the Rust
  type, `FireStep` for one pass of the worker loop, and `RunWorker` for the loop
  itself. Its object invariant `Valid()` says that every pending identity was
  drawn from the counter and that no identity is pending twice. Two client
  methods replay the queue-level assertions of the crate's tests:
  `StartThenShutdown` for the start/shutdown test and `FastAndSlow` for the
  fast/slow test.

Instants and durations are natural-number ticks. The clock reading `now` is a
parameter. The callback is opaque payload and is not modelled.

Two timers scheduled at the same instant do not both fire: the code inserts
with `BTreeMap::insert`, so a second timer scheduled at an occupied instant
replaces the first, and the first timer is lost
(`Deadlines.ScheduleDropsOccupant`). The same happens when a periodic timer is
put back at an instant another timer holds (`Deadlines.Fire`). Two periodic
timers scheduled at the same clock reading, one with a period that divides the
other's, collide this way: a 50-tick and a 150-tick timer both scheduled at
reading 0 leave only the 50-tick one after two passes, because its third
deadline is the 150-tick timer's first (`Deadlines.PeriodicCollision`). In the
crate's fast/slow test the two `Instant::now()` reads normally differ, but
`Instant` is only non-decreasing, so they can be equal. When they are, the slow
timer is lost at the fast timer's third deadline and the test's `len() == 2`
fails. `FastAndSlow` models the usual case by scheduling the slower timer one
tick later.

## Model

| member | source | states |
|---|---|---|
| Deadlines.HasLeast | src/lib.rs:61 | every non-empty finite set of instants has a least element, so the ordered map always has a first entry |
| Deadlines.MinKey | src/lib.rs:61 | the result is in the set and no element is smaller |
| Deadlines.Earliest | src/lib.rs:61-62 | the first key of a non-empty queue is pending and no pending instant is earlier |
| Deadlines.DistinctIdsCount | src/lib.rs:168-170 | with distinct identities, the number of records equals the number of pending identities |
| Deadlines.ScheduleKeepsInvariant | src/lib.rs:97-100 | the counter's value is not yet pending; inserting it keeps identities distinct and below the advanced counter |
| Deadlines.ScheduleDropsOccupant | src/lib.rs:96-122 | inserting at an occupied instant drops the earlier timer entirely and leaves the record count unchanged |
| Deadlines.Without | src/lib.rs:135 | after retain, no record carries the identity, every record with another identity keeps its instant and period, every remaining record is one of the old ones unchanged, and the queue is unchanged if the identity was absent |
| Deadlines.WithoutKeepsInvariant | src/lib.rs:135 | cancelling keeps the invariant |
| Deadlines.WithoutRemovesOne | src/lib.rs:130-141 | with distinct identities, cancelling a pending timer removes exactly one record |
| Deadlines.FirstWith | src/lib.rs:146 | the search finds a record carrying the identity, and no earlier instant carries it |
| Deadlines.SetPeriod | src/lib.rs:146-147 | same instants; the found record now has the new period and the same identity; every other record is unchanged |
| Deadlines.SetPeriodOnlyThatTimer | src/lib.rs:143-153 | with distinct identities, exactly the record carrying the identity gets the new period, and the invariant holds |
| Deadlines.Decide | src/lib.rs:55-68 | idle iff the queue is empty; a wait is positive and ends exactly at the earliest deadline; a firing is of the earliest record and only when it is due |
| Deadlines.Fire | src/lib.rs:60-74 | unchanged unless a record fires; the fired record leaves its instant and, if periodic, is due again at deadline + period with the same identity and period; every other record stays, except one at deadline + period, which is replaced |
| Deadlines.FireKeepsInvariant | src/lib.rs:70-73 | a pass of the worker keeps the invariant |
| Deadlines.OneShotGone | src/lib.rs:70-71 | a fired one-shot timer's identity is no longer pending |
| Deadlines.FireIndependentOfNow | src/lib.rs:71-73 | the pass is the same for every clock reading at or after the deadline, so rescheduling is anchored to the deadline and not to the clock |
| Deadlines.FireAdvancesEarliest | src/lib.rs:61-73 | after a firing, every pending deadline is strictly later than the one that fired |
| Deadlines.Trace | src/lib.rs:51-83 | one worker step per wake-up |
| Deadlines.Replay | src/lib.rs:51-74 | the queue after one worker pass per wake-up; the loop never introduces an identity that was not already pending |
| Deadlines.ReplayKeepsInvariant | src/lib.rs:51-74 | the worker loop keeps the invariant |
| Deadlines.TraceFiresFromEarliest | src/lib.rs:61-73 | nothing fires during a run at a deadline earlier than the queue's earliest at the start |
| Deadlines.TraceFiresInOrder | src/lib.rs:51-74 | within one run of worker passes with no scheduling call in between, timers fire in strictly increasing deadline order |
| Deadlines.IdleWhileEmpty | src/lib.rs:55-58 | a worker woken any number of times while nothing is pending reports every pass idle and leaves the queue empty |
| Deadlines.FireKeepsIds | src/lib.rs:70-74 | a pass never makes pending an identity that was not pending before it |
| Deadlines.TraceFiresPending | src/lib.rs:51-74 | every identity fired during a run of passes was pending at the start of the run |
| Deadlines.OneShotFiresOnce | src/lib.rs:70-74 | with distinct identities, a one-shot timer fired by the first pass of a run is fired by no later pass of it |
| Deadlines.TraceSuffix | src/lib.rs:51-74 | the steps from pass k of a run on are those of a run started from the queue the first k passes leave |
| Deadlines.OneShotFiresAtMostOnce | src/lib.rs:70-74 | under the invariant, a one-shot timer fired by any pass of a run is fired by no later pass of it |
| Deadlines.PeriodicCollision | src/lib.rs:71-73 | a 50-tick timer due at 50 and a 150-tick timer due at 150 leave only the 50-tick timer, due at 150, after passes at 50 and 100: the put-back record replaces the slower timer |
| Deadlines.FireFirstOfTwo | src/lib.rs:60-74 | of two pending periodic timers, the earlier one fires when due and is put back one period later, over any timer due then |
| Deadlines.CancelOneOfTwo | src/lib.rs:135 | cancelling one of two timers with different identities leaves the other alone |
| Deadlines.LoneFire | src/lib.rs:60-74 | a lone periodic timer woken at or after its deadline fires and is due exactly one period later |
| Deadlines.LoneReplay | src/lib.rs:71-73 | a lone periodic timer woken at or after each of its deadlines is due at t + n * p after n passes, whatever the wake-up times |
| Deadlines.LoneTrace | src/lib.rs:71-73 | such a timer fires at t, t + p, t + 2p, ..., so there is no drift |
| Scheduler.TimerQueue.constructor | src/lib.rs:36-44 | nothing is pending, the counter is 0, the stop flag is clear, and the invariant holds |
| Scheduler.TimerQueue.ContainsId | src/lib.rs:124-128 | true iff some pending record carries the identity |
| Scheduler.TimerQueue.Len | src/lib.rs:168-170 | the number of records, which is the number of pending timers |
| Scheduler.TimerQueue.IsEmpty | src/lib.rs:164-166 | true whenever the scheduler is stopped, whatever the queue holds; otherwise true iff nothing is pending |
| Scheduler.TimerQueue.FreshId | src/lib.rs:97 | returns the counter's value before the call and advances it by one; that identity is not pending |
| Scheduler.TimerQueue.ScheduleAt | src/lib.rs:96-103 | returns the old counter and advances it; the instant maps to (id, 0) with map-insert semantics; the identity was fresh and is now pending; the invariant holds |
| Scheduler.TimerQueue.SchedulePeriodic | src/lib.rs:105-113 | as ScheduleAt, with now + period mapped to (id, period) |
| Scheduler.TimerQueue.ScheduleCustom | src/lib.rs:115-122 | as ScheduleAt, with first mapped to (id, period) |
| Scheduler.TimerQueue.Cancel | src/lib.rs:130-141 | true iff some record carried the identity; afterwards none does and every other record is kept; a false result leaves the queue unchanged |
| Scheduler.TimerQueue.SetPeriodic | src/lib.rs:143-153 | true iff the identity is pending; only that record's period changes; the instants are the same; a false result leaves the queue unchanged |
| Scheduler.TimerQueue.CancelPeriodic | src/lib.rs:155-157 | the same as SetPeriodic with period 0 |
| Scheduler.TimerQueue.Clear | src/lib.rs:159-162 | the queue is empty; the counter and the stop flag are unchanged |
| Scheduler.TimerQueue.Shutdown | src/lib.rs:87-94 | the stop flag is set, so IsEmpty holds whatever is pending; the queue and the counter are unchanged |
| Scheduler.TimerQueue.FireStep | src/lib.rs:51-74 | with the stop flag set it reports Stopped and changes nothing; otherwise its step and new queue are Decide and Fire of the old queue |
| Scheduler.StartThenShutdown | src/lib.rs:216-225 | a started scheduler with nothing pending has its stop flag down and its worker idle at every wake-up; after shutdown the flag is up, the length is 0 and it reports itself empty |
| Scheduler.FastThenSlow | src/lib.rs:228-233 | a 50-tick periodic timer scheduled at reading 0 and a 150-tick one at reading 1, with the worker woken at 50, 100, 150 and 151: the fast timer fires at 50, 100 and 150, the slow one at 151, and both are pending again, at 200 and 301 |
| Scheduler.FourPasses | src/lib.rs:51-74 | the four passes of FastThenSlow on any queue holding a 50-tick timer due at 50 and a 150-tick timer due at 151 |
| Scheduler.FastAndSlow | src/lib.rs:228-237 | after the passes of FastThenSlow both timers are still pending (length 2, the fast one found); after cancelling the fast one it is no longer pending; a worker woken at or after each later deadline then fires only the slow one, at 301, 451, 601, ... |
| Scheduler.RunLone | src/lib.rs:51-74 | a worker woken at or after each deadline of the one pending periodic timer fires it at each deadline in turn, with no drift, and leaves it due n periods after its first deadline; the invariant holds |
| Scheduler.TimerQueue.RunWorker | src/lib.rs:46-85 | runs the loop over the wake-up instants; with the stop flag set it does nothing; otherwise its steps and final queue are Trace and Replay of the old queue; the invariant holds |

## Left out

- Threads, the mutex, the condition variable and the atomic orderings are not modelled. Each operation is one atomic step, and a wait is only its returned `Wait(delay)` or `Idle` step.
- `start` spawning the worker thread, and the handle leaked by a second `start`, are not modelled. `RunWorker` models the loop body run on a given sequence of wake-up instants. Each wake-up, whether a timeout, a notification or a spurious wake, uses one instant.
- RunWorker: the stop flag cannot be raised during a run, since no other thread runs beside it; shutdown is modelled as a separate step.
- Calling the callback, `catch_unwind` and the error hook passed to `new` are not modelled. They do not change the queue.
- Lock poisoning (the `unwrap` on every lock) is not modelled. It is a process-level fault with no defined queue state.
- `Instant::now()` is not modelled. The clock reading is the `now` parameter, and instants and durations are natural-number ticks.
- FreshId: does not model the wrap-around of the 64-bit counter after 2^64 identities. Identities are unbounded naturals, so freshness holds for every run.
- ScheduleAt, SchedulePeriodic, ScheduleCustom: inherit FreshId's unbounded counter, as above.
- SchedulePeriodic, FireStep: do not model the panic on `Instant + Duration` overflow. Ticks are unbounded.
- The sleep-based timing test is not modelled as written, because its fire counts depend on wall-clock scheduling. `FastAndSlow` replays its queue-level assertions (length 2 and `contains_id` after the worker has run, then cancel) with explicit wake-up instants instead of sleeps, and states which timer fires at each of them.
