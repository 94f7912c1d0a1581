# Table-driven task scheduler: a verified model

This project models the table-driven AUTOSAR task scheduler of `OS_evolution/Task Schedule` and proves what
it does. It covers three layers and their composition.

1. **Schedule tables.** Initialisation folds the periods of each table through a gcd macro unrolled to eight
   divisions into a duration, enumerates the duration into buckets of due tasks, and compacts the buckets into
   an expiry-point array (`UnrolledGcd`, `TableDuration`, `TaskGrouping`, `ExpiryPoints`, `TableSchedulerInit`).
   The array is then walked cyclically with an absolute timer in seconds and nanoseconds (`PeriodicRelease`,
   `ScheduleTables`).
2. **Lists.** The ready queue is an intrusive circular doubly linked list used as a stable priority queue
   (`QueueOrder`, `ReadyQueues`). The event hash table is an array of singly linked lists whose nodes keep the
   address of the pointer that leads to them (`EventTable`).
3. **The protocol** between the scheduler thread and the timing thread (`Protocol`, `ProtocolInvariant`,
   `RunLog`, `Preemption`, `Jobs`), and the heap implementation of its steps on the linked queue, the task
   structures and the tables (`Schedulers`).

`EndToEnd` joins them: in every run in which no tick arrives while an earlier one is still waiting, a task of
period p is activated at exactly the ticks whose time is a multiple of p, every activation is accounted for, and
(`Jobs.BestTaskRuns`) the dispatcher always runs the best ready task. Both table types and both basic task types
are covered; where single-shot ones behave differently the statements say how. `EndToEnd.RunOneTable` carries the
result down to the heap.

## How the model is built

Code that changes things in place is a class or a method with a loop: the ring and the hash lists rewrite their
links, the tables update their index and timer, and `Schedulers.Scheduler` holds the fields of `struct scheduler`.
Each method is proved against a function of values, and the lemmas are about those functions. The macros are pure
and are functions.

The protocol is a step system. A thread step is the stretch of the scheduler thread between two points at which
the timing thread could run; a tick is one whole `process_tick`. A run is any sequence of thread steps and ticks;
an action that is not enabled changes nothing, so the runs are all interleavings. The modelling assumptions are:

- One CPU. The timing thread (priority 90) runs only while the scheduler thread's priority is 50, and then
  completes its tick. The priority is a field of the model, written where the source writes it.
- A preempt signal that is not blocked is delivered before the task continues. Several ticks may still arrive
  before that. Which mask `prev_set` restores is part of the state: the signal is blocked while its handler
  runs, and the handler's call of `disable_timing_preempt` records that mask, so a task entered while another is
  held back by a preemption runs with the signal blocked.
- `enable_timing_preempt` lowers the priority (line 31) before it restores the mask (line 33). In the first `entry`
  of a task the mask is still the one of initialisation, which blocks nothing, while the scheduler is WAITING
  already; this stretch is a location of its own. In a later `entry` the signal is blocked there and comes through
  at line 33 at the latest, and at the other two calls the scheduler is not WAITING, so these need none.
- A saved context is where it will continue: at the first or a later call of `entry`, before line 33 of the first
  one, in the task's function, behind the only `terminate` of a single-shot task, or nowhere once that function
  has returned through `uc_link`. Switching to a context of the last kind is undefined in C; the run ends there, in
  a location of its own, and nothing is claimed beyond it.
- Ticks begin once the scheduler has left `SCHED_INIT`, which creation waits for before the timers are started.
- A log kept beside the run records ticks, hand-overs, activations, entries and terminations. It is not read by
  any step.

## Where the code falls short of its documentation

Each of these is a lemma; the code is modelled as it is.

- The gcd macro is exact only up to eight divisions. Beyond that the duration need not be a multiple of any
  period, and a task is then no longer released periodically. `MacroLcmExact`, `DurationExact` and
  `ReleasedPeriodicallyIff` give the exact conditions, `InexactDuration` an example.
- A tick that arrives while `timing_arrived` is still set overwrites the earlier one (`ExactlyOnceHandoff`,
  `CoalescedTicks`).
- A tick between the lowering of the priority at the end of an epoch (line 222, with `SCHED_SUSPENDED` stored) and
  the lock of the mutex at the start of the next wait (line 136) strands the scheduler thread until another tick
  comes, and is itself never handled (`StrandedIffWindowTick`, `WindowTickStrands`, `WindowTickNeverHandled`). A
  tick between the lock and the exchange waits for the mutex in `resume_scheduler_thread` and does wake the
  thread; in the model it is a tick that finds the thread blocked.
- A task that resumes after a preemption keeps the maximal priority and the state READY until it ends, so it
  cannot be preempted again (`ResumedIsNotPreemptible`).
- A task that is activated again while preempted merges the activation into its open job instead of missing its
  deadline visibly; the exit happens only for a task that is still queued (`ActivationMerges`, `LoopIterationInv`).
- Preemptions do not nest: while a preempted task waits, a tick leaves the running task alone until it ends. The
  exception is a tick between lines 31 and 33 of a task's first `entry` (`OnePreemptedTask`, `NestedTickHoldsTwo`,
  `TickInterruptsIff`).
- Such a tick also makes the resumed task restore a `prev_set` in which the signal is blocked. If it was free
  before, no task is ever interrupted in its own function again (`PreemptionLostIff`, `LostForever`).
- A single-shot table does not stop after its final expiry point (`SingleShotRestarts`, against SWS_Os_00009). It
  starts over with a delay of 0, so over an exact duration it never releases all its tasks periodically; with one
  expiry point no time passes at all (`ReleasedPeriodicallyIff`, `ComputedDurationServesAll`).
- A single-shot task that is activated again returns without entering and stays READY outside the queue; activated
  once more it is switched to although its function has returned (`SingleShotRunsOnce`, `BestTaskRuns`,
  `EpochDrains`, `GoneTaskIsUndefined`).
- The duration can depend on the order of the tasks when one order leaves the macro's range (`OrderMatters`).
- `set_timer` carries once, which is enough for every start value only if some period is at most one second, and
  `start_timer` does not carry at all (`StaysNormalisedIff`, `SmallestPeriodDecides`, `FirstExpiryNormalisedIff`).

## Model

| member | source | states |
|---|---|---|
| UnrolledGcd.LevelIsCutEuclid | OS_evolution/Task Schedule/src/table_scheduler.c:18-26 | the branch-free macros GCD_1 to GCD_last compute Euclid's algorithm cut off after eight divisions |
| UnrolledGcd.CutEuclidExact | OS_evolution/Task Schedule/src/table_scheduler.c:18-26 | the cut result is the gcd when the divisions suffice and strictly larger than the gcd when they do not |
| UnrolledGcd.MacroGcdExact | OS_evolution/Task Schedule/src/table_scheduler.c:17-26 | GCD(a,b) is the greatest common divisor (every common divisor divides it) if and only if Euclid needs at most eight divisions |
| UnrolledGcd.MacroIsEighthDivisor | OS_evolution/Task Schedule/src/table_scheduler.c:17-26 | whenever Euclid gets as far as an eighth division, the macro returns the divisor of that division, in either order of its arguments |
| UnrolledGcd.InexactAnswer | OS_evolution/Task Schedule/src/table_scheduler.c:17-26 | beyond eight divisions there always is such a chain of remainders, so the inexact answers are determined too: the eighth divisor, above the gcd |
| UnrolledGcd.LameBound | OS_evolution/Task Schedule/src/table_scheduler.c:17-26 | n divisions need arguments at least as large as the Fibonacci numbers F(n+1) and F(n+2) |
| UnrolledGcd.SmallArgumentsExact | OS_evolution/Task Schedule/src/table_scheduler.c:17-26 | the macro is exact whenever the smaller argument is below 55 or the larger below 89 |
| UnrolledGcd.BoundIsTight | OS_evolution/Task Schedule/src/table_scheduler.c:17-26 | (89, 55) breaks both bounds: the macro answers 2 where the gcd is 1 |
| UnrolledGcd.MacroLcmExact | OS_evolution/Task Schedule/src/table_scheduler.c:28 | LCM(a,b) is the least common multiple, or a common multiple at all, if and only if eight divisions suffice |
| TableDuration.DurationStep | OS_evolution/Task Schedule/src/table_scheduler.c:118 | one step of the fold keeps the duration the least common multiple if and only if its arguments are within eight divisions |
| TableDuration.InexactStep | OS_evolution/Task Schedule/src/table_scheduler.c:118 | beyond eight divisions the step yields the product of duration and period divided by the divisor of the eighth division |
| TableDuration.DurationExact | OS_evolution/Task Schedule/src/table_scheduler.c:107-119 | after every task the duration is the least common multiple of the periods so far, if and only if every step is within eight divisions |
| TableDuration.SmallPeriodsExact | OS_evolution/Task Schedule/src/table_scheduler.c:107-119 | periods below 55 always give the least common multiple |
| TableDuration.DurationOrderIndependent | OS_evolution/Task Schedule/src/table_scheduler.c:114-119 | as long as two orders of the same tasks both fold within eight divisions at every step, they give the same duration |
| TableDuration.OrderMatters | OS_evolution/Task Schedule/src/table_scheduler.c:114-119 | without that the order can matter: 89, 55 and 4895 fold to 4895 in one order and to 2447 times as much in another |
| TableDuration.DurationAtLeast | OS_evolution/Task Schedule/src/table_scheduler.c:118 | however inexact the fold, the duration is at least every period of the table |
| TableDuration.InexactDuration | OS_evolution/Task Schedule/src/table_scheduler.c:118 | periods 89, 55 give a duration that neither of them divides, and a third period can turn it into a common multiple that is not the least |
| TableDuration.FinalProductsSuffice | OS_evolution/Task Schedule/src/table_scheduler.c:28 | if the final duration times each period fits a bound then so does every product formed on the way |
| TableDuration.ShippedPeriodsExact | OS_evolution/Task Schedule/unit_test/table_scheduler_create_test.c:5-7 | every task set drawn from the simulator's periods has an exact duration although 1000 exceeds the magnitude bound |
| TaskGrouping.CountTables | OS_evolution/Task Schedule/src/table_scheduler.c:98-104 | the number of tables is one more than the highest table id, and at least one |
| TaskGrouping.TableTasksPartition | OS_evolution/Task Schedule/src/table_scheduler.c:114-117 | grouping keeps exactly the tasks of each table, each once, in configuration order |
| TaskGrouping.GroupTasks | OS_evolution/Task Schedule/src/table_scheduler.c:107-119 | the loop leaves in each table's slot its folded duration, its task count and its task list |
| ExpiryPoints.BucketIsDueList | OS_evolution/Task Schedule/src/table_scheduler.c:141-160 | the bucket of a time lists exactly the tasks whose period divides it, each once, latest configured first |
| ExpiryPoints.PointsAreExpiryTable | OS_evolution/Task Schedule/src/table_scheduler.c:128-171 | the compacted points have strictly increasing offsets in [0, D), are never empty, list exactly the due tasks, and miss no time at which a task is due |
| ExpiryPoints.FirstPoint | OS_evolution/Task Schedule/src/table_scheduler.c:175 | the first point of a non-empty table is at offset 0 and lists every task |
| ExpiryPoints.FillSlot | OS_evolution/Task Schedule/src/table_scheduler.c:141-161 | filling one bucket marks it at its first task only and counts it once |
| ExpiryPoints.BuildPoints | OS_evolution/Task Schedule/src/table_scheduler.c:128-173 | the two passes fill an array of exactly the counted size with exactly the specified points |
| PeriodicRelease.TickAdvance | OS_evolution/Task Schedule/src/table_scheduler.c:295-304 | the delay chosen at a tick, including the wrap, is the distance to the next tick |
| PeriodicRelease.RoundTakesDuration | OS_evolution/Task Schedule/src/table_scheduler.c:175-179 | any full round of consecutive delays, wherever it starts, takes exactly the duration (SWS_Os_00194) |
| PeriodicRelease.DelayPositive | OS_evolution/Task Schedule/src/table_scheduler.c:302-304 | every delay of a periodic table, the wrap included, is at least 1 |
| PeriodicRelease.TicksIncrease | OS_evolution/Task Schedule/src/table_scheduler.c:293-304 | expiry points are visited at strictly increasing times (SWS_Os_00002) |
| PeriodicRelease.DelayAtMostPeriod | OS_evolution/Task Schedule/src/table_scheduler.c:302-304 | no delay of a periodic table exceeds the period of any of its tasks, whether or not the duration came out exact |
| PeriodicRelease.DelaysAtMostIff | OS_evolution/Task Schedule/src/table_scheduler.c:302-308 | for either table type, all delays stay within a bound if and only if some period does, or the duration of a periodic table does, or a single-shot table has no period below its duration |
| PeriodicRelease.ReleasedPeriodicallyIff | OS_evolution/Task Schedule/src/table_scheduler.c:181-189 | a task is released at every multiple of its period, for ever, and at no other time, if and only if a round takes any time and the period divides it; a round takes the duration if the table's first task is BASIC_PERIODIC and the last offset otherwise |
| PeriodicRelease.TicksOnScheduleIff | OS_evolution/Task Schedule/src/table_scheduler.c:293-310 | every tick releases a task exactly when its time is a multiple of the period if and only if the period divides the time of a round |
| PeriodicRelease.EveryMultipleHasTick | OS_evolution/Task Schedule/src/table_scheduler.c:140-171 | on a table whose rounds take a positive time that a task's period divides, every multiple of the period is the time of a tick that releases it |
| PeriodicRelease.ReleaseCount | OS_evolution/Task Schedule/src/table_scheduler.c:293-304 | on a periodic table, up to and including any time T, a task whose period p divides the duration has been released floor(T/p)+1 times |
| PeriodicRelease.RestartingReleaseCount | OS_evolution/Task Schedule/src/table_scheduler.c:305-308 | on a single-shot table each restart adds one more release: by the k-th tick at time T there have been floor(T/p)+1 plus one for every completed round |
| ScheduleTables.TimerDriftFree | OS_evolution/Task Schedule/src/table_scheduler.c:236-245 | after any number of updates, seconds times 10^9 plus nanoseconds stand exactly at the start plus 10^6 times the tick time in ms |
| ScheduleTables.StaysNormalisedIff | OS_evolution/Task Schedule/src/table_scheduler.c:236-245 | for either table type, the single carry keeps tv_nsec in [0, 10^9) for every start and every number of updates if and only if the delays are bounded by 1000 ms in the sense of DelaysAtMostIff |
| ScheduleTables.FirstExpiryNormalisedIff | OS_evolution/Task Schedule/src/table_scheduler.c:255-259 | the first armed value is normalised unless the clock reads the last nanosecond of a second |
| ScheduleTables.ArmedDelayFits | OS_evolution/Task Schedule/inc/scheduler.h:27 | every delay in ns fits a 32-bit int, in which MS_TO_NS multiplies, if and only if the delays are bounded by 2147 ms in the same sense |
| ScheduleTables.SingleShotRestarts | OS_evolution/Task Schedule/src/table_scheduler.c:305-310 | after its final point a single-shot table fires again at the same time and releases every task, so it does not stop |
| ScheduleTables.ScheduleTable.constructor | OS_evolution/Task Schedule/src/table_scheduler.c:164-189 | the table built from tasks and duration has the specified points, offset 0 first, and is PERIODIC if and only if its first task is BASIC_PERIODIC |
| ScheduleTables.ScheduleTable.SetTimer | OS_evolution/Task Schedule/src/table_scheduler.c:236-245 | the stored time, counted in ns of 10^-9 s, grows by exactly the given nanoseconds, and the seconds by one exactly when 10^9 ns are reached |
| ScheduleTables.ScheduleTable.StartTimer | OS_evolution/Task Schedule/src/table_scheduler.c:247-262 | the seconds are those of the clock reading and the nanoseconds grow by the delay, or by 1 for a delay of 0 |
| ScheduleTables.ScheduleTable.Start | OS_evolution/Task Schedule/src/table_scheduler.c:579-584 | a started table is armed for its first tick, 1 ns after the clock reading |
| ScheduleTables.ScheduleTable.UpdateTimer | OS_evolution/Task Schedule/src/table_scheduler.c:293-310 | the index moves on cyclically and an armed table stays armed for the following tick |
| ScheduleTables.ScheduleTable.ArmedIsDriftFree | OS_evolution/Task Schedule/src/table_scheduler.c:236-245 | an armed table's timer equals its start plus the time of the coming tick |
| QueueOrder.InsertPos | OS_evolution/Task Schedule/src/table_scheduler.c:43-54 | every task before the position has a smaller priority value, or the same and no larger period; the task at it has a larger value, or the same and a larger period |
| QueueOrder.InsertSorted | OS_evolution/Task Schedule/src/table_scheduler.c:43-57 | insertion keeps the queue sorted by priority, then period |
| QueueOrder.SortedMeans | OS_evolution/Task Schedule/src/table_scheduler.c:43-57 | a queue is sorted if and only if priority values never fall along it and, within one value, periods never fall |
| QueueOrder.InsertMembers | OS_evolution/Task Schedule/src/table_scheduler.c:43-57 | insertion adds the task once and loses nothing |
| QueueOrder.InsertIsFifo | OS_evolution/Task Schedule/src/table_scheduler.c:43-57 | among tasks of one priority and period the newcomer goes last and the others keep their order |
| QueueOrder.StableOrderUnique | OS_evolution/Task Schedule/src/table_scheduler.c:43-57 | a sorted queue is determined by its per-key order, so this insertion is the only stable one |
| QueueOrder.PointReleaseOrder | OS_evolution/Task Schedule/src/table_scheduler.c:72-82 | a point enqueued on an empty queue keeps its tasks and ends up ordered by rising priority value, then rising period, then falling configuration index |
| ReadyQueues.LinkBetween | OS_evolution/Task Schedule/inc/list.h:22-30 | the four link writes of __list_add |
| ReadyQueues.ListAddTail | OS_evolution/Task Schedule/inc/list.h:37-40 | inserting before a node of a well-formed ring gives the well-formed ring with the node at that place |
| ReadyQueues.ListDel | OS_evolution/Task Schedule/inc/list.h:43-54 | removing any entry of a well-formed ring gives the well-formed ring without it and clears its links |
| ReadyQueues.ReadyQueue.constructor | OS_evolution/Task Schedule/inc/list.h:16-20 | a fresh head is a well-formed empty ring |
| ReadyQueues.ReadyQueue.IsEmpty | OS_evolution/Task Schedule/inc/list.h:56-59 | the test on the head's next pointer decides emptiness |
| ReadyQueues.ReadyQueue.FindSuccessor | OS_evolution/Task Schedule/src/table_scheduler.c:43-54 | the walk over the ring passes exactly the tasks with a smaller priority value, or the same and no larger period, and stops at the first other one or at the head |
| ReadyQueues.ReadyQueue.InsertNode | OS_evolution/Task Schedule/src/table_scheduler.c:43-57 | the linked insertion refines insertion into the sequence of tasks |
| ReadyQueues.ReadyQueue.EnqueueCheck | OS_evolution/Task Schedule/src/table_scheduler.c:33-58 | it exits if and only if the flag says the task is queued, and otherwise refines insertion and sets the flag |
| ReadyQueues.ReadyQueue.UnlinkFirst | OS_evolution/Task Schedule/src/table_scheduler.c:66-67 | unlinking takes exactly the first entry out of the ring |
| ReadyQueues.ReadyQueue.Dequeue | OS_evolution/Task Schedule/src/table_scheduler.c:60-70 | it returns null on the empty ring and otherwise removes exactly the first task and clears its flag and links |
| ProtocolInvariant.EnqueuePointEffect | OS_evolution/Task Schedule/src/table_scheduler.c:72-82 | activating a point exits if and only if one of its tasks is still queued; otherwise exactly its tasks become READY and queued |
| ProtocolInvariant.RequeueNeverExits | OS_evolution/Task Schedule/src/scheduler.c:203-206 | putting the preempted task back never runs into the deadline exit, whatever the tick activated |
| ProtocolInvariant.StillPreempted | OS_evolution/Task Schedule/src/table_scheduler.c:77-80 | a preempted task that the same tick activates is READY already and will not be requeued a second time |
| ProtocolInvariant.ActivateMid | OS_evolution/Task Schedule/src/scheduler.c:199-211 | the activation block exits exactly on a missed deadline and otherwise yields the merged sorted queue with no task RUNNING |
| ProtocolInvariant.PickInv | OS_evolution/Task Schedule/src/scheduler.c:213-225 | the pick establishes that no queued task has to run before the current one |
| ProtocolInvariant.LoopIterationInv | OS_evolution/Task Schedule/src/scheduler.c:198-225 | a loop iteration keeps the invariant and exits if and only if a tick activates a task that is still queued |
| ProtocolInvariant.InvAlways | OS_evolution/Task Schedule/src/scheduler.c:134-226 | in every state of every interleaving, for periodic and single-shot tasks, until the scheduler stops: flags mirror the queue, queued tasks are READY and unique, only the current task is RUNNING, a READY task is queued or about to run unless its function has returned, open jobs are held, and each location fixes the scheduler's state and priority |
| ProtocolInvariant.ResumeInv | OS_evolution/Task Schedule/src/scheduler.c:162-171 | a preempt signal that was blocked and comes through when a preempted task resumes finds the scheduler RUNNING and is ignored, and the task runs to its end |
| RunLog.CurrentAfterTick | OS_evolution/Task Schedule/src/table_scheduler.c:74-75 | after a tick the current expiry point is the one the tick stood for |
| RunLog.ExactlyOnceHandoff | OS_evolution/Task Schedule/src/scheduler.c:199-202 | the points enqueued, with the pending one, are the points of all ticks in order if and only if no tick arrived while timing_arrived was set; in general exactly the overwritten ticks are missing |
| RunLog.CoalescedTicks | OS_evolution/Task Schedule/src/table_scheduler.c:348 | three actions can lose a tick, and no run of fewer than three actions loses any |
| RunLog.TickHappensIff | OS_evolution/Task Schedule/src/table_scheduler.c:325-356 | after any run one more tick is processed, with its record, its step of the table and its effect on scheduler state and signal, if and only if initialisation is over and the scheduler thread is waiting, in the loop, in the open stretch of a first `entry` or in a task's function |
| RunLog.TickEnabledIff | OS_evolution/Task Schedule/src/scheduler.c:16-34 | these are exactly the locations at which the scheduler thread runs below the timing priority |
| RunLog.SuspendedThreadServes | OS_evolution/Task Schedule/src/scheduler.c:141-153 | a tick that finds the scheduler thread blocked and SUSPENDED wakes it, and two thread steps later exactly its point has been enqueued |
| RunLog.StrandedIffWindowTick | OS_evolution/Task Schedule/src/scheduler.c:136-148 | a blocked scheduler thread has a tick it will not be woken for if and only if the last tick fell between the end of the epoch, where the priority is lowered with SUSPENDED stored, and the lock of the mutex |
| RunLog.WindowTickStrands | OS_evolution/Task Schedule/src/scheduler.c:136-148 | after a tick in that window no number of thread steps runs the scheduler thread again |
| RunLog.WindowTickNeverHandled | OS_evolution/Task Schedule/src/scheduler.c:221-222 | a tick in that window is overwritten by the next tick or stays pending, so it is never handled |
| RunLog.SuspendedWithNothingWaiting | OS_evolution/Task Schedule/src/scheduler.c:220-224 | when the loop suspends the scheduler the queue is empty and no tick is waiting |
| Preemption.OnePreemptedTask | OS_evolution/Task Schedule/src/scheduler.c:16-41 | in every run in which no tick falls between lines 31 and 33 of a task's first `entry` while another task is held back, at most one task is ever held back, and prev_set masks the signal as long as there is one |
| Preemption.NestedTickHoldsTwo | OS_evolution/Task Schedule/src/scheduler.c:16-41 | that premise is exact: after such a tick the next thread step holds back a second task |
| Preemption.MaskedIffHeld | OS_evolution/Task Schedule/src/scheduler.c:16-34 | in every run without any tick in that stretch of a first `entry`, prev_set masks the signal exactly while a task is held back |
| Preemption.PreemptionLostIff | OS_evolution/Task Schedule/src/scheduler.c:27-41 | prev_set masks the signal with no resumption left that would clear it if and only if some tick fell into that stretch while prev_set was free of the signal |
| Preemption.LostForever | OS_evolution/Task Schedule/src/scheduler.c:16-34 | once lost in this way, preemption stays lost under every further action |
| Preemption.TickInterruptsIff | OS_evolution/Task Schedule/src/scheduler.c:162-171 | after a tick the running task is back in the loop still RUNNING and inside its job if and only if it was in its first `entry`, or no other task is held back in its own function and preemption has not been lost; otherwise it has run to its end and is SUSPENDED |
| Jobs.JobConservation | OS_evolution/Task Schedule/src/scheduler.c:36-68 | in every run: jobs begun equal jobs ended plus the open one, and activations equal jobs begun plus merges plus the one waiting to begin plus those after the only job of a single-shot task |
| Jobs.SingleShotRunsOnce | OS_evolution/Task Schedule/src/scheduler.c:62-68 | in every run a single-shot task is entered at most once, no activation of a periodic task lapses, and a context has never run if and only if no entry of its task is logged |
| Jobs.FirstEntryIsOpen | OS_evolution/Task Schedule/src/scheduler.c:16-41 | a task without a logged entry is entered through the stretch between lines 31 and 33, at priority 50 and in WAITING; any later `entry` leads straight into its function |
| Jobs.ReturnsWithoutEntering | OS_evolution/Task Schedule/src/scheduler.c:62-80 | a single-shot task activated after its only job returns to the loop without a further entry or termination, and stays READY and unqueued with a dead context |
| Jobs.ActivationMerges | OS_evolution/Task Schedule/src/table_scheduler.c:77-80 | an activation that hits the preempted task leaves it queued once, inside its open job |
| Jobs.BestTaskRuns | OS_evolution/Task Schedule/src/scheduler.c:213-217 | whenever a task has been switched to, every READY task has a larger priority value than it, or the same and at least its period, except single-shot tasks whose function has returned, which stay READY without being queued |
| Jobs.RunningIsCurrent | OS_evolution/Task Schedule/src/scheduler.c:36-41 | a RUNNING task is the current one, is not queued, and back in the loop there is a tick that preempted it |
| Jobs.PreemptedIsKept | OS_evolution/Task Schedule/src/scheduler.c:203-206 | after the iteration that its preemption leads to, the task is queued or current, still inside its job |
| Jobs.ResumedIsNotPreemptible | OS_evolution/Task Schedule/src/scheduler.c:162-171 | a resumed task stays READY at the maximal priority, so no tick reaches it before it ends |
| Jobs.EpochDrains | OS_evolution/Task Schedule/src/scheduler.c:197-226 | without a further tick, if no queued task is a single-shot task whose function has returned, the loop dispatches each queued task once in queue order, ends them all, touches no other task, and suspends |
| Jobs.GoneTaskIsUndefined | OS_evolution/Task Schedule/src/scheduler.c:155-160 | if there is such a task, the loop ends up switching to its dead context, so the condition of EpochDrains is exact |
| Jobs.ActivatedEpochDrains | OS_evolution/Task Schedule/src/scheduler.c:197-226 | the same from the tick on, for the merged queue, unless a deadline has been missed |
| Jobs.ComesToRest | OS_evolution/Task Schedule/src/scheduler.c:191-232 | from every reachable state, once ticks stop, the scheduler thread comes to rest with every job ended unless it exited on a missed deadline or switched to a dead context |
| Schedulers.Scheduler.constructor | OS_evolution/Task Schedule/src/scheduler.c:335-360 | the initialised heap stands for the initial state of the step system |
| Schedulers.Scheduler.EnterTask | OS_evolution/Task Schedule/src/scheduler.c:36-41 | `entry` on the heap refines its step, up to the lowered priority in a task's first run |
| Schedulers.Scheduler.FinishFirstEntry | OS_evolution/Task Schedule/src/scheduler.c:33 | the restored mask at the end of a first `entry` refines its step |
| Schedulers.Scheduler.TerminateTask | OS_evolution/Task Schedule/src/scheduler.c:43-49 | `terminate` on the heap refines its step |
| Schedulers.Scheduler.InterruptTask | OS_evolution/Task Schedule/src/scheduler.c:162-171 | the signal handler refines its step |
| Schedulers.Scheduler.ResumeTask | OS_evolution/Task Schedule/src/scheduler.c:162-171 | the return out of the signal handler, with its effect on mask and pending signal, and the rest of the task refine their step |
| Schedulers.Scheduler.ReturnTask | OS_evolution/Task Schedule/src/scheduler.c:62-80 | the return of a single-shot task's function through uc_link refines its step |
| Schedulers.Scheduler.BeginWait | OS_evolution/Task Schedule/src/scheduler.c:134-143 | the first part of scheduler_wait_resume refines its step |
| Schedulers.Scheduler.EndWait | OS_evolution/Task Schedule/src/scheduler.c:146-153 | the wake-up refines its step |
| Schedulers.Scheduler.TaskEnqueueCheck | OS_evolution/Task Schedule/src/table_scheduler.c:33-58 | task_enqueue_check on the shared ring refines the step system's enqueue, exit included |
| Schedulers.Scheduler.ReadyAndEnqueue | OS_evolution/Task Schedule/src/table_scheduler.c:78-80 | marking READY and enqueuing one task |
| Schedulers.Scheduler.ExpiryPointEnqueue | OS_evolution/Task Schedule/src/table_scheduler.c:72-82 | the loop over the point of the table whose timer expired last refines its activation |
| Schedulers.Scheduler.RequeuePreempted | OS_evolution/Task Schedule/src/scheduler.c:203-206 | the requeuing of a preempted task refines its step |
| Schedulers.Scheduler.ActivateTasks | OS_evolution/Task Schedule/src/scheduler.c:199-211 | the block under timing_arrived refines its step |
| Schedulers.Scheduler.DequeueTask | OS_evolution/Task Schedule/src/table_scheduler.c:60-70 | task_dequeue on the shared ring takes the head of the modelled queue |
| Schedulers.Scheduler.PickNextTask | OS_evolution/Task Schedule/src/scheduler.c:213-225 | the pick and what follows it refine their step |
| Schedulers.Scheduler.RunLoopIteration | OS_evolution/Task Schedule/src/scheduler.c:198-225 | one pass of the loop on the heap refines the loop step, exit included |
| Schedulers.Scheduler.RunTask | OS_evolution/Task Schedule/src/scheduler.c:51-68 | a chosen task, fresh, preempted or at the end of a single-shot function, runs back to the loop and leaves the queue and all other contexts alone |
| Schedulers.Scheduler.RunPicked | OS_evolution/Task Schedule/src/scheduler.c:197-226 | the loop dispatches the queue in order to its end, or up to the first task whose function has returned |
| Schedulers.Scheduler.RunEpoch | OS_evolution/Task Schedule/src/scheduler.c:197-226 | the loop over one epoch exits exactly on a missed deadline, suspends exactly if the merged queue holds no dead context, having dispatched it in order, and otherwise stops at the first dead context |
| Schedulers.Scheduler.UpdateTable | OS_evolution/Task Schedule/src/table_scheduler.c:293-310 | stepping one table leaves the timers of all others alone and every armed table armed |
| Schedulers.Scheduler.SignalTick | OS_evolution/Task Schedule/src/table_scheduler.c:348-356 | the tick is noted, a suspended scheduler is resumed and a running task is signalled, and nothing else changes |
| Schedulers.Scheduler.ProcessTick | OS_evolution/Task Schedule/src/table_scheduler.c:325-356 | process_tick on the heap refines the tick step and keeps every armed table armed |
| Schedulers.Scheduler.Perform | OS_evolution/Task Schedule/src/scheduler.c:134-226 | any action of the step system is performed on the heap, with the exit exactly where the step system exits; a table advances exactly on a tick of its own at one of the locations where ticks are processed, and armed tables stay armed |
| Schedulers.Scheduler.Run | OS_evolution/Task Schedule/src/scheduler.c:191-232 | any run is performed on the heap and ends in the state that the step system reaches, or in its exit |
| TableSchedulerInit.InitTables | OS_evolution/Task Schedule/src/table_scheduler.c:89-191 | initialisation builds, for each table id, the expiry table of exactly its tasks over their folded duration, PERIODIC if and only if the first of them is BASIC_PERIODIC |
| TableSchedulerInit.CreateScheduler | OS_evolution/Task Schedule/src/table_scheduler.c:529-538 | creation yields a fresh heap that stands for the initial state over as many tables as the task array names, each built for its tasks |
| TableSchedulerInit.StartTables | OS_evolution/Task Schedule/src/table_scheduler.c:579-590 | starting arms every table |
| EventTable.RemoveFirstPops | OS_evolution/Task Schedule/src/table_scheduler.c:432-438 | removal takes away the latest entry of its descriptor and no other |
| EventTable.TableRefinesMap | OS_evolution/Task Schedule/src/table_scheduler.c:414-439 | after any sequence of registrations and removals a lookup finds the latest handler still registered for the descriptor, collisions included |
| EventTable.HList.AddHead | OS_evolution/Task Schedule/inc/list.h:103-111 | the new node heads the chain and all back pointers stay right |
| EventTable.HList.WriteThrough | OS_evolution/Task Schedule/inc/list.h:91 | the write through pprev changes exactly the pointer that leads to the node |
| EventTable.HList.Unlink | OS_evolution/Task Schedule/inc/list.h:87-94 | __hlist_del bypasses the node and repairs the back pointer behind it |
| EventTable.HList.Delete | OS_evolution/Task Schedule/inc/list.h:96-101 | hlist_del leaves the well-formed chain without the node and clears the node's links |
| EventTable.EventHashtable.RegisterEvent | OS_evolution/Task Schedule/src/table_scheduler.c:414-423 | registration on the heap refines the table operation and touches one bucket |
| EventTable.EventHashtable.Lookup | OS_evolution/Task Schedule/src/table_scheduler.c:616-630 | dispatch finds the first entry of the descriptor in its bucket, or none |
| EventTable.EventHashtable.UnregisterEvent | OS_evolution/Task Schedule/src/table_scheduler.c:425-439 | removal on the heap refines the table operation and preserves every other entry |
| EndToEnd.EveryTickIsPeriodic | OS_evolution/Task Schedule/src/table_scheduler.c:293-310 | in every run, on every table of either type on whose round a task's period fits, the m-th tick stands for a release of the task if and only if the m-th tick time is a multiple of its period, and the timer armed for it holds the start plus that time |
| EndToEnd.TimerOfTick | OS_evolution/Task Schedule/src/table_scheduler.c:236-245 | the timer armed for the k-th tick of a table is exactly the start plus the k-th tick time in ns |
| EndToEnd.EnqueuedInTurn | OS_evolution/Task Schedule/src/table_scheduler.c:72-75 | with one table and no overrun the k-th point enqueued is point k modulo the number of points |
| EndToEnd.PeriodicActivation | OS_evolution/Task Schedule/src/table_scheduler.c:72-82 | main theorem, for both table and task types: the k-th hand-over activates a task if and only if its period divides the k-th tick time; on a periodic table floor(T/p)+1 activations by time T, on a single-shot table one more per restart, are each begun, waiting, merged, or after a single-shot task's only job |
| EndToEnd.EightDivisionsDecide | OS_evolution/Task Schedule/src/table_scheduler.c:17-28 | when the earlier periods fold exactly, the periodic table built over the duration releases every task periodically if and only if the last macro call stays within eight divisions |
| EndToEnd.ComputedDurationServesAll | OS_evolution/Task Schedule/src/table_scheduler.c:107-189 | while the fold is exact, all tasks are released at exactly the multiples of their periods if and only if the first task is BASIC_PERIODIC, and the main theorem then applies to all of them |
| EndToEnd.SmallestPeriodDecides | OS_evolution/Task Schedule/src/table_scheduler.c:107-119 | on every periodic table over a computed duration, exact or not, the single carry suffices if and only if some period is at most 1000 ms, and the delays fit 32 bits if and only if some period is at most 2147 ms |
| EndToEnd.RunOneTable | OS_evolution/Task Schedule/src/table_scheduler.c:529-590 | the layers joined on the heap: creating, starting and running a one-table scheduler reaches the state of the run, keeps the timer at the time of the coming tick, and without overruns activates every task on schedule |

## Left out

- TaskGrouping.GroupTasks: works on mathematical integers; a 32-bit overflow of a duration times a period is
  undefined in C. `FinalProductsSuffice` says when no product overflows.
- Schedulers.Scheduler.RunEpoch: covers an epoch without a further tick; ticks in between are covered by the step
  system, whose runs interleave them freely.
- EndToEnd.EightDivisionsDecide: is about periodic tables; when a single-shot table over an exact duration serves all
  its tasks is settled by `ComputedDurationServesAll`.
- EndToEnd.PeriodicActivation: is about one table. With several tables a single flag and a single current table
  cannot carry two ticks at once, so the hand-over theorem states which ticks survive instead;
  `EveryTickIsPeriodic` holds for any number of tables.
- Schedulers.Scheduler.Run: performs a given finite run; the scheduler thread's endless outer loop and the timing
  thread's epoll loop are not methods of their own.
- Signal masks other than the one bit that decides whether the preempt signal reaches a task, and the contents of
  stacks and registers: a saved context is reduced to where it will continue.
- Interleavings inside `process_tick`, and the mutex of the resume condition: a tick is one step.
- Extended tasks and interrupt service routines, which the source does not implement, and the list of event tasks
  of an expiry point, which only they would fill.
- The array of expiry points and the task list of a point are values once built; `table_scheduler_deinit` and the
  shallow copy of the bucket heads are not modelled.
- epoll, timerfd, eventfd, clock reads, thread creation, CPU binding, stacks and printing: a tick is an action, a
  clock reading is a parameter.
- `load_tasks` and `simulator.c`, which only allocate and copy, and the demo programs beside the scheduler.
