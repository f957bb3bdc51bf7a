# KisTA in Dafny

KisTA simulates fixed task sets on single-core processing elements: each
processing element has a scheduler, tasks compute for given times and wait for
their period or for communication, and channels move data between processing
elements. This project models its scheduling kernel, its schedulability
analyses, its channel and network-interface protocol and its activity recorder,
and proves what they promise of every run.

Time is counted in whole ticks. Delta cycles follow section 4.2.1 of IEEE Std
1666-2011, and the FIFO of a channel follows section 6.23 of the same standard.

## Layout

| file | content |
|---|---|
| `Arith.dfy`, `Options.dfy` | integer division, optional values |
| `TaskModel.dfy`, `Schedules.dfy` | task sets, utilization, execution logs, deadlines met |
| `Edf.dfy`, `ResponseTime.dfy`, `LiuLayland.dfy` | the schedulability theory, over logs |
| `Kernel.dfy`, `Guarantees.dfy`, `MissFlags.dfy` | the event-driven kernel machine, what the analyses say of all its runs, and what its miss flags say |
| `ProcessingElement.dfy` | the same kernel updating its task records in place |
| `Dispatching.dfy`, `CodedEdf.dfy`, `PriorityTable.dfy`, `DeadlineMonotonic.dfy`, `StaticSchedule.dfy` | the dispatcher branch by branch, and its tables |
| `LoadAnalysis.dfy`, `StaticAnalysis.dfy`, `PolicyAnalysis.dfy`, `Hyperperiod.dfy` | the analyses as they are coded, and which of them a scheduler runs |
| `ResponseMeasurement.dfy` | the response times a simulation measures |
| `TaskFsm.dfy`, `Platform.dfy` | the seven-state task machine, mutual exclusion, time accounting |
| `TaskConstructs.dfy`, `PeriodWait.dfy` | `consume` and `wait_period`, and the latter against the kernel machine |
| `Channel.dfy`, `NetworkInterface.dfy`, `SenderWakeUp.dfy` | channels, the transmit queue, blocked senders |
| `ActivityTrace.dfy` | the activity recorder and the drawn positions |

The kernel works in two layers. `Schedules` describes a run by its log, the task
that held the processor in each tick, and the theory (earliest deadline first,
response times, utilization bounds) is proved about logs. `Kernel` is a machine
with the fields the simulator keeps (remaining work, tracked deadline, waiting
and miss flags, active task). Its steps dispatch only at the events that wake
the scheduler, and `Guarantees` shows that its logs are nevertheless those of
the policy, so that the theory carries over to every run.

Lemmas over several sequences carry `{:induction false}` whether or not they recurse:
no automatically chosen induction hypothesis enters their proofs.

## Where the code departs from its documentation

The model follows the code; each departure is a proved statement.

* `src/load_analysis/load_analysis.cpp:125` adds the interference to the last
  guess instead of the task's own load, and line 95 resets the iterator over the
  more urgent units outside the loop. The loop then ends within two rounds with
  first guess plus interference (`LoadAnalysis.AssessUnit`). That value satisfies
  the demand of its task, and so bounds the response, under an exact condition on
  the interference (`LoadAnalysis.ContainedExactly`). Without it, a set is
  accepted although every long enough run misses a deadline
  (`LoadAnalysis.AcceptedRunMisses`), and a schedulable set is rejected
  (`LoadAnalysis.RejectedButResponsive`). `ResponseTime.SolveResponse` is the
  intended iteration.
* `src/scheduler.cpp:299-342`: the flag of the EDF branch is not initialised,
  its running minimum is not updated, and its second search does not move.
  `Dispatching.EdfAsCodedExact` says for which inputs the choice is the documented
  one. `Kernel` uses the documented one.
* `src/task_info_t.cpp:899-901`: the time to the next deadline is 0 at a release
  (`Dispatching.TimeToDeadlineExact`). `CodedEdf.CodedRunExact` says which runs
  under the coded branch are nevertheless runs of earliest deadline first; an
  underloaded set can miss a deadline in another (`CodedEdf.CodedEdfMisses`).
* `src/scheduler.cpp:226-246`: with no task ready the cyclic executive returns
  the task before its saved position, not the next one, and the position stays
  (`Dispatching.Scheduler.DispatchCycleExecutive`).
* `src/scheduler.cpp:1202-1218`: a static schedule given both by names and by
  handles is stored twice over, which does not change the dispatches
  (`StaticSchedule.DoubledSame`), and handles alone are not checked against the
  task map.
* `src/task_info_t.cpp:676-711`: the waiting states test the wait signal before
  the grant, so that a grant withdrawn as the wait ends leaves the task executing
  without a processor (`TaskFsm.StaleExactly`), and two tasks can be charged for
  the same tick (`Platform.JointFallOvercharges`).
* `src/user_task_constructs.cpp:231-256`: with a deadline shorter than the
  period a late job can start before its release (`TaskConstructs.StartsExactly`,
  `TaskConstructs.EarlyStart`).
* `src/network_interface.cpp:156`: blocked senders are woken before the room is
  free, and line 147 waits for a request event that may have passed. A state in
  which only a new request can happen leaves a sender blocked for some message
  sizes, exactly unless any two of them fit into the buffer together
  (`SenderWakeUp.ProgressExactly`, `SenderWakeUp.LostWakeUp`); for the same sizes the
  interface can be woken before an empty queue, an error
  (`SenderWakeUp.FailsExactly`). If any two fit, the
  buffer empties once requests cease (`SenderWakeUp.QuietProgress`). While requests
  go on, newer ones can overtake a blocked sender for ever, for every positive
  message size (`SenderWakeUp.Overtaken`, `SenderWakeUp.WaitingExactly`). Transfers
  that take no time can forget an accepted message
  (`SenderWakeUp.InstantTransferForgotten`).
* `src/tikz_activity_trace.cpp:265` rounds the time unit of the drawing to whole
  time units, so that the largest gap can be drawn with less than the maximum
  separation (`ActivityTrace.WholeSeparation`, `ActivityTrace.LargestFallsShort`),
  and the unit can be 0 (`ActivityTrace.UnitNearest`).
* `src/scheduler.cpp:1765-1810` runs the full-utilization check for every policy
  and the Liu and Layland check for preemptive rate monotonic only. Acceptance
  guarantees deadlines for rate monotonic and earliest deadline first with
  deadlines equal to periods, and not for other orders or shorter deadlines
  (`PolicyAnalysis.UserPrioritiesMiss`, `PolicyAnalysis.ShortDeadlinesMiss`).
* `src/sched_types.cpp:70-95`: two scheduler types can each be below the other; the
  lookup in the default table still works (`PolicyAnalysis.LookupExact`).
* `src/task_info_t.cpp:440-482`: an event that comes while the measuring process
  waits for the other kind is lost, which does not change the longest response it
  reports (`ResponseMeasurement.MeasuredWorstCase`).
* `src/static_sched_analysis.cpp:112`: the full-utilization check rejects
  utilization 1, which is schedulable (`StaticAnalysis.FullUtilizationVerdict`,
  `StaticAnalysis.FullyLoaded`).

## Model

| member | source | states |
|---|---|---|
| Guarantees.EdfRunSafe | src/scheduler.cpp:291-342 | With the documented earliest-deadline choice, deadlines equal to periods and utilization at most 1, no job of any run is incomplete at its deadline and no miss flag is raised, however long the run |
| Guarantees.UtilizationExact | src/static_sched_analysis.cpp:105-116 | With deadlines equal to periods, a run under earliest deadline first that reaches a common multiple of the periods is free of misses if and only if the utilization is at most 1 |
| Guarantees.OverloadedRunMisses | src/static_sched_analysis.cpp:105-116 | Utilization above 1 makes every policy miss a deadline by any common multiple of the periods the run reaches |
| Guarantees.ResponseTimeSound | src/load_analysis/load_analysis.cpp:33-168 | When every task has a response within its deadline, each job of every preemptive static-priority run ends within any window that satisfies its task's demand |
| Guarantees.PriorityRunSafe | src/scheduler.cpp:252-281 | Bounded responses keep every static-priority run free of misses, although the scheduler decides only at events |
| Guarantees.ResponseTestExact | src/load_analysis/load_analysis.cpp:33-168 | The intended test is exact: a run past the first deadlines has no miss if and only if every task has a response within its deadline |
| Guarantees.ResponseWithin | src/load_analysis/load_analysis.cpp:33-168 | In a miss-free static-priority run, each job ends within any window up to the period that satisfies its task's demand |
| Guarantees.LiuLaylandRunSafe | src/static_sched_analysis.cpp:130-168 | A rate monotonic set below the Liu and Layland bound never misses a deadline in any run |
| Kernel.StepKeepsInv | src/user_task_constructs.cpp:205-278 | Every step keeps remaining work, tracked deadline and waiting state in agreement with the work in the log and the releases so far |
| Kernel.SettledAt | src/user_task_constructs.cpp:205-278 | Once an instant has settled, a task is ready exactly if a released job of it is unfinished in the log |
| Kernel.StepKeepsPriority | src/scheduler.cpp:471-486 | Deciding only at scheduling events loses nothing: the running task is always the most urgent pending one |
| Kernel.StepKeepsEdf | src/scheduler.cpp:471-486 | Likewise for earliest deadline first while deadlines are met |
| Kernel.StepKeepsUnflagged | src/user_task_constructs.cpp:228-231 | While deadlines are met no miss flag is raised |
| MissFlags.MissedExactly | src/user_task_constructs.cpp:228-256 | In every run of every policy, earlier misses included, a miss flag is up if and only if, by the log, some job of the task was unfinished at its deadline and has ended since |
| MissFlags.AnyMissed | src/user_task_constructs.cpp:228-256 | So some flag is up if and only if some job of some task ended late |
| MissFlags.FlagStays | src/user_task_constructs.cpp:231-234 | A flag once raised stays raised |
| MissFlags.TriggeredExactly | src/scheduler.cpp:471-486 | Besides the tick timer the scheduler wakes up exactly at the start, when the active task ends a job on time, and when another waiting task is released |
| Edf.OwedFits | src/scheduler.cpp:291-298 | In an EDF log, at every time t the work due by any d not before t fits into d - t |
| Edf.EdfSufficient | src/static_sched_analysis.cpp:105-120 | No EDF log of a set of utilization at most 1 misses a deadline |
| Edf.OverloadMisses | src/taskset_by_name_t.cpp:36-78 | No log at all of an overloaded set meets its deadlines up to a common multiple of the periods |
| ResponseTime.SolveResponse | src/load_analysis/load_analysis.cpp:76-142 | The intended iteration returns the least solution of the recurrence, or shows that none lies within the bound |
| ResponseTime.ResponseBound | src/load_analysis/load_analysis.cpp:76-158 | In every priority log, each job of a task is done r after its release if window r satisfies the task's demand |
| ResponseTime.ResponsiveNecessary | src/load_analysis/load_analysis.cpp:154-158 | A log that meets the first deadline of a task shows that the task has a response within it |
| ResponseTime.LeastResponseAttained | src/load_analysis/load_analysis.cpp:33-168 | The worst case is attained: the first job takes exactly the least response |
| ResponseMeasurement.MeasuredWorstCase | src/task_info_t.cpp:440-482 | In every miss-free static-priority run past the least solution of the recurrence, the longest response measured is that solution, and it is the first job's |
| ResponseMeasurement.DoneAtRelease | src/task_info_t.cpp:473-480 | At a release of a miss-free run exactly the jobs released before are done, so a measurement that starts there is of the new job |
| ResponseMeasurement.ResponseProbe.OnInstant | src/task_info_t.cpp:440-482 | One instant of the measuring process, with the loss of the event it does not wait for |
| ResponseMeasurement.MeasuredIs | src/task_info_t.cpp:440-482 | On every log, of any policy and with any misses, the longest response is the greatest length of the pairs measured, and its location the release of the first that attains it: the first pair starts at 0, each ends with the first end after its release, and each next one starts with the first release strictly after that end |
| ResponseMeasurement.PairsUnique | src/task_info_t.cpp:440-482 | The log determines these pairs |
| ResponseMeasurement.MeasuresAll | src/task_info_t.cpp:440-482 | If every job ends before its next release, the longest response is that of all jobs that have ended |
| LiuLayland.BoundImpliesFullUtilization | src/static_sched_analysis.cpp:130-152 | Passing the Liu and Layland check implies utilization below 1, for every number of tasks |
| LiuLayland.BoundNonIncreasing | src/static_sched_analysis.cpp:141-144 | The bound does not grow with the number of tasks |
| LiuLayland.HyperbolicAtMostMean | src/static_sched_analysis.cpp:130-152 | The product of 1 + u over the tasks is at most the power the check compares with 2 |
| LiuLayland.HyperbolicResponsive | src/static_sched_analysis.cpp:130-152 | A rate monotonic set whose product of 1 + u is at most 2 has a response within every period |
| LiuLayland.BoundResponsive | src/static_sched_analysis.cpp:130-168 | A rate monotonic set that passes the check has a response within every period |
| StaticAnalysis.IsPeriodic | src/taskset_by_name_t.cpp:23-33 | True exactly if every assigned task has a period |
| StaticAnalysis.TaskSetUtilization | src/taskset_by_name_t.cpp:69-78 | The accumulated value is the utilization the theorems speak of |
| StaticAnalysis.FullUtilizationBound | src/static_sched_analysis.cpp:105-128 | The three verdicts: skipped exactly for a set with an aperiodic task, passed exactly below utilization 1, failed exactly from 1 on |
| StaticAnalysis.LiuLaylandBound | src/static_sched_analysis.cpp:130-168 | Comparing with N times the N-th root of 2 less 1 gives the same verdict as the test with the root cleared |
| StaticAnalysis.FullUtilizationVerdict | src/static_sched_analysis.cpp:105-120 | A passed set never misses under EDF; a failed one is free of misses through its hyperperiod if and only if its utilization is 1 |
| StaticAnalysis.MissByHyperperiod | src/taskset_by_name_t.cpp:36-78 | Under any policy a set of utilization above 1 has missed a deadline by its hyperperiod |
| StaticAnalysis.LiuLaylandVerdict | src/static_sched_analysis.cpp:130-168 | A rate monotonic set that passes Liu and Layland also passes full utilization and never misses |
| StaticAnalysis.FullyLoaded | src/static_sched_analysis.cpp:112-115 | A set the full-utilization check fails although no run of it misses |
| PolicyAnalysis.LookupExact | src/sched_types.cpp:70-95 | Under the order as written, which is not one a map may use, the default table yields the Liu and Layland check exactly for preemptive rate monotonic schedulers |
| PolicyAnalysis.Analyse | src/scheduler.cpp:1765-1810 | Every verdict of both checks, from the task set and the scheduler type alone: the common check is skipped exactly with an aperiodic task and fails exactly from utilization 1 on; the second runs exactly for preemptive rate monotonic schedulers the first did not fail, and fails exactly at or above the Liu and Layland bound; both pass exactly for accepted sets |
| PolicyAnalysis.RateMonotonicAccepted | src/scheduler.cpp:1765-1810 | An accepted rate monotonic scheduler with deadlines equal to periods never misses, however its table's ties are broken |
| PolicyAnalysis.EarliestDeadlineAccepted | src/scheduler.cpp:1765-1810 | An accepted earliest-deadline scheduler with deadlines equal to periods never misses under the documented choice |
| PolicyAnalysis.AnyTableExact | src/scheduler.cpp:252-281 | For any other static order, a run past the first deadlines is safe if and only if every task has a response within its deadline |
| PolicyAnalysis.UserPrioritiesMiss | src/static_sched_analysis.cpp:39-55 | An accepted user-priority scheduler of which every run past time 10 has missed |
| PolicyAnalysis.ShortDeadlinesMiss | src/static_sched_analysis.cpp:105-168 | A set both checks pass whose deadlines, shorter than the periods, no run can meet |
| Hyperperiod.Gcd2 | src/auxiliar.hpp:50-59 | The divisors of the result are exactly the common divisors of the arguments |
| Hyperperiod.GcdDivisors | src/auxiliar.hpp:50-59 | The same for the specification function, zeros included |
| Hyperperiod.Lcm2 | src/auxiliar.hpp:62-76 | Dividing the larger operand first gives the 64-bit value of the least common multiple; two zeros divide by zero |
| Hyperperiod.LcmMultiples | src/auxiliar.hpp:62-76 | The multiples of the result are exactly the common multiples |
| Hyperperiod.LcmOfList | src/auxiliar.hpp:83-100 | The fold over 64-bit words is right if and only if the least common multiple fits in a word; the empty list is an error |
| Hyperperiod.LcmAllMultiples | src/auxiliar.hpp:83-100 | The multiples of the fold are exactly the common multiples of the list |
| Hyperperiod.LcmAllUnordered | src/taskset_by_name_t.cpp:52-65 | Order and repetition of the periods do not matter |
| Hyperperiod.LcmAllPrefix | src/auxiliar.hpp:83-100 | No intermediate value exceeds the result |
| Hyperperiod.GetHyperperiod | src/taskset_by_name_t.cpp:36-67 | Collecting periods at the front of the vector yields the least common multiple of all periods whenever it fits in a word |
| Hyperperiod.HyperperiodExact | src/taskset_by_name_t.cpp:35-65 | The joint release pattern repeats with x if and only if x is a multiple of the hyperperiod |
| LoadAnalysis.AssessUnit | src/load_analysis/load_analysis.cpp:76-152 | For every input the loop as coded ends within two rounds with first guess plus its interference |
| LoadAnalysis.AssessPreciseBound | src/load_analysis/load_analysis.cpp:37-170 | The in-place pass stores those responses, changes nothing else, never reaches the iteration abort, and accepts exactly if all are within their deadlines; with immediate exit it stops at the first that is not and leaves the units after it alone |
| LoadAnalysis.ContainedExactly | src/load_analysis/load_analysis.cpp:94-152 | The coded response satisfies its own demand if and only if the interference grows, from the first guess to it, by no more than the loads of the more urgent units |
| LoadAnalysis.MildIsBound | src/load_analysis/load_analysis.cpp:94-152 | So it does, in particular, if the interference on the first guess is within every more urgent period |
| LoadAnalysis.ContainedNotMild | src/load_analysis/load_analysis.cpp:94-152 | A set outside that special case whose coded response is sound |
| LoadAnalysis.AcceptedRunSafe | src/load_analysis/load_analysis.cpp:37-170 | An accepted set whose responses meet the exact condition never misses a deadline in any run |
| LoadAnalysis.AcceptedMildRunSafe | src/load_analysis/load_analysis.cpp:37-170 | In particular one whose interference is mild |
| LoadAnalysis.AcceptedRunMisses | src/load_analysis/load_analysis.cpp:95-125 | Without it, an accepted set of which every run past time 11 has missed a deadline |
| LoadAnalysis.RejectedButResponsive | src/load_analysis/load_analysis.cpp:125-155 | A rejected set in which every task has a response within its deadline |
| Dispatching.TimeToNextDeadline | src/task_info_t.cpp:899-901 | The result is below the period and leads to a multiple of it |
| Dispatching.TimeToDeadlineExact | src/task_info_t.cpp:899-901 | It is the distance to the deadline of the latest job if and only if no job is released now, when it is 0 |
| Dispatching.EdfAsCodedExact | src/scheduler.cpp:299-320 | The coded branch makes the documented choice if and only if its flag starts cleared and some ready task of least value ties with the first ready task or is followed by no ready task that undercuts the first |
| Dispatching.CodedPick | src/scheduler.cpp:303-321 | The task returned is the first ready one if nobody undercuts it, and otherwise the one task that undercuts it with none after it doing so |
| Dispatching.EdfAsCodedThreeTasks | src/scheduler.cpp:303-321 | Three ready tasks for which it does not |
| Dispatching.Scheduler.DispatchStatic | src/scheduler.cpp:215-219 | Entries in turn, the index advancing cyclically |
| Dispatching.Scheduler.DispatchCycleExecutive | src/scheduler.cpp:221-248 | The ready task nearest on the ring from the saved position, which moves past it; unchanged position when none is ready |
| Dispatching.Scheduler.DispatchStaticPriorities | src/scheduler.cpp:252-281 | The ready task of least table index, or the first when none is ready |
| Dispatching.Scheduler.DispatchEdf | src/scheduler.cpp:291-344 | The loops compute the coded choice for either value of the uninitialised flag: none with the flag set, the first task of the map with the flag clear and none ready |
| Dispatching.Scheduler.Account | src/scheduler.cpp:566-575 | After any series of dispatches the counters are its length and its number of changes of task |
| Dispatching.ChangesCounted | src/scheduler.cpp:568-571 | The context-change statistic is the number of positions at which the series differs from the position before |
| Dispatching.BoundedWaiting | src/scheduler.cpp:221-248 | A task that stays ready is dispatched within its ring distance plus one consecutive dispatches, at most the number of tasks |
| CodedEdf.CodedStepExact | src/scheduler.cpp:291-344 | While deadlines are met, a triggered coded step is a step of earliest deadline first if and only if the branch settles on a ready task whose period ends first, release instants included |
| CodedEdf.NoReleaseExact | src/scheduler.cpp:303-321 | When no ready task is released at the instant, that is the condition of EdfAsCodedExact on the values the branch reads |
| CodedEdf.ReleaseExact | src/task_info_t.cpp:899-901 | When the first ready task is just released and so reads 0, the choice is right if and only if its period ends first |
| CodedEdf.ReadyDue | src/task_info_t.cpp:899-901 | While deadlines are met, the tracked deadline of a ready task is the end of the current period |
| CodedEdf.CodedRunExact | src/scheduler.cpp:291-344 | With utilization at most 1, a coded run is a run of earliest deadline first if and only if every dispatch meets the condition, and then it never misses |
| CodedEdf.CodedEdfMisses | src/scheduler.cpp:291-344 | A set of utilization below 1 that misses a deadline in a run under the coded branch |
| PriorityTable.StrictWeakOrder | src/task_info_t.cpp:943-964 | Each order given to the sort is a strict weak order |
| PriorityTable.SortedByPriority | src/task_info_t.cpp:943-946 | A table is sorted by user priority if and only if the priority numbers never decrease |
| PriorityTable.SortedByDeadline | src/task_info_t.cpp:955-958 | A table is sorted by deadline if and only if the deadlines never decrease |
| PriorityTable.SortedByDensity | src/task_info_t.cpp:961-964 | A table is sorted by density if and only if no later task has more work per tick of its deadline, compared in whole numbers |
| PriorityTable.SortedIsRateMonotonic | src/scheduler.cpp:1427-1444 | Sorting by period, or by deadline when deadlines are periods, is equivalent to rate monotonic order |
| PriorityTable.UtilizationUnordered | src/taskset_by_name_t.cpp:69-78 | Utilization does not depend on the order of the task map |
| PriorityTable.LiuLaylandTable | src/scheduler.cpp:1412-1456 | A map that passes the Liu and Layland check gives runs without misses whichever way the sort breaks ties |
| DeadlineMonotonic.DeadlineOrderOptimal | src/scheduler.cpp:1427-1444 | Deadline monotonic order is optimal, deadlines shorter than periods included: if the tasks have responses within their deadlines in some order, they do in every table sorted by deadline |
| DeadlineMonotonic.DeadlineTableSafe | src/scheduler.cpp:252-281 | Once a run in some order has met every deadline past the first ones, no run over a table sorted by deadline ever misses |
| StaticSchedule.CheckAndPrepare | src/scheduler.cpp:1152-1246 | Exactly which schedules are accepted, and the list that results |
| StaticSchedule.IndexAtIs | src/scheduler.cpp:215-219 | The index before dispatch k is k modulo the length of the schedule |
| StaticSchedule.DoubledSame | src/scheduler.cpp:1202-1218 | A schedule given in both forms yields the same dispatches although it is stored twice over |
| StaticSchedule.EveryTaskServed | src/scheduler.cpp:1224-1240 | Every scheduled task is dispatched in any window of as many dispatches as the schedule has entries |
| ProcessingElement.Element.SettleAll | src/user_task_constructs.cpp:205-278 | The in-place pass applies the calls and releases of an instant to every task and detects exactly the scheduling events |
| ProcessingElement.Element.Dispatch | src/scheduler.cpp:252-342 | The search loops make a choice the policy allows |
| ProcessingElement.Element.Tick | src/scheduler.cpp:505-595 | Each tick of the mutable processing element is a step of the kernel machine; the active task is chosen anew if a scheduling event or the tick timer wakes the scheduler, and stays otherwise |
| ProcessingElement.Simulate | src/scheduler.cpp:505-595 | Runs of every length exist for every set, policy and pattern of tick-timer events; a miss is reported if and only if, by the log, some job ended late, and none is for a table its static analysis covers, nor for static priorities with responses within deadlines |
| ProcessingElement.CoveredRunSafe | src/static_sched_analysis.cpp:39-55 | Runs of a table accepted for rate monotonic or earliest deadline first, with deadlines equal to periods, never miss |
| TaskFsm.NeverUnexpected | src/task_info_t.cpp:564-808 | Under every sequence of signal changes, simultaneous ones included, no unexpected transition is reached; active waits imply grant and wait signal, inactive ones wait signal and no grant |
| TaskFsm.ReactCoherent | src/task_info_t.cpp:600-735 | Each state's wait list covers every edge that could break this, and each waited edge leads to a legal branch |
| TaskFsm.ExecutingLeaves | src/task_info_t.cpp:590-671 | An executing task that is disturbed waits for its period, then for communication, if that signal is high, actively or not by its grant; it is finished exactly if it has ended and consumes no more, and ready otherwise; undisturbed it goes on |
| TaskFsm.ReadyLeaves | src/task_info_t.cpp:723-733 | A ready task executes exactly when it is granted the processor |
| TaskFsm.WaitingLeaves | src/task_info_t.cpp:674-806 | A waiting task waits for the same signal while it is high, actively exactly while granted; when it falls the task is ready if it waited and stays without a grant, and executes otherwise |
| TaskFsm.EmitsExactly | src/task_info_t.cpp:590-806 | In every run the scheduler is notified exactly of an executing task that starts to wait, one that is finished, and a wait that ends without the processor |
| TaskFsm.WaitsBalance | src/task_info_t.cpp:590-806 | In every run each wait is announced once and ends once, by the notice of an ended wait or by executing on |
| TaskFsm.StaleExactly | src/task_info_t.cpp:674-711 | EXECUTING without a grant is entered if and only if the grant falls in the delta cycle in which an active wait ends |
| TaskFsm.ExecutingIsGranted | src/task_info_t.cpp:564-808 | In runs without such a delta cycle EXECUTING always means a grant |
| TaskFsm.StaleExample | src/task_info_t.cpp:674-690 | A run that reaches EXECUTING without a grant |
| TaskFsm.ExecutingWhileWaiting | src/task_info_t.cpp:728-737 | A run that reaches EXECUTING with a wait signal high |
| TaskFsm.OccupationExact | src/task_info_t.cpp:392-436 | The accounted time, open interval included, is exactly the time spent in EXECUTING |
| TaskFsm.TaskInfo.UpdateState | src/task_info_t.cpp:590-806 | One resumption of the process: next state, wait list, scheduler notification and error branches |
| TaskFsm.TaskInfo.AccountOccupationTime | src/task_info_t.cpp:392-436 | One activation of the accounting process, for all states |
| TaskFsm.TaskInfo.EndOfSimulation | src/task_info_t.cpp:810-864 | In the two end situations the stored time includes the last interval, and otherwise it is unchanged |
| Platform.MutualExclusion | src/scheduler.cpp:505-595 | In every reachable configuration exactly the granted task, if any, has its active signal high |
| Platform.AccountingExact | src/scheduler.cpp:505-595 | If no grant falls as an active wait ends, occupation times, scheduling time and the time in which neither the scheduler computes nor the granted task executes add up to the elapsed time |
| Platform.SchedulingTimeExact | src/scheduler.cpp:505-595 | The scheduling time is the sum of the lengths of all decisions begun, less the one under way |
| Platform.PlatformUtilizationExact | src/scheduler.cpp:912-955 | The reported platform utilization is then exactly the share of the elapsed time that is not idle, the interval under way not counted |
| Platform.PlatformUtilizationBound | src/scheduler.cpp:912-955 | The reported platform utilization then lies between 0 and 1 |
| Platform.JointFallOvercharges | src/task_info_t.cpp:674-690 | Without the condition, a run that charges two ticks in one |
| TaskConstructs.Computation.Consume | src/user_task_constructs.cpp:45-118 | Under every pattern of grants the call returns at the first instant at which the task has held the processor for exactly the requested time; otherwise the rest is what remains; grants of a tick each suffice |
| TaskConstructs.HeldInside | src/user_task_constructs.cpp:66-88 | Held time grows tick by tick inside a grant |
| TaskConstructs.PeriodicTask.constructor | src/task_info_t.cpp:889-895 | The tracked deadline starts at the period when no deadline is set, and at the deadline otherwise |
| TaskConstructs.PeriodicTask.WaitPeriod | src/user_task_constructs.cpp:205-278 | At the k-th call the tracked deadline is D + k P, and the flag is set exactly if some call so far came after its own deadline |
| TaskConstructs.NextReleaseClosed | src/task_info_t.cpp:903-922 | The release event awaited is the first positive multiple of the period not before the call |
| TaskConstructs.EarlyExactly | src/user_task_constructs.cpp:231-256 | A job starts before its release if and only if the call before fell between its deadline and that release |
| TaskConstructs.StartsExactly | src/user_task_constructs.cpp:231-256 | The same over whole runs, for every deadline, shorter or longer than the period |
| TaskConstructs.NeverEarly | src/user_task_constructs.cpp:228-276 | With deadline equal to period, job k starts exactly at its release or at the end of the job before, whichever is later, even after a chain of misses |
| TaskConstructs.EarlyStart | src/user_task_constructs.cpp:231-256 | A deadline of 3 in a period of 10 that lets two jobs start early |
| PeriodWait.CallReturnsAtOnce | src/user_task_constructs.cpp:228-276 | A task whose job ends now is ready in the settled kernel if and only if its wait_period call returns at once, and the miss flag is raised exactly for a late call |
| PeriodWait.WaitEndsAtReturn | src/user_task_constructs.cpp:257-265 | A waiting task starts its next job in the kernel exactly at the instant its call returns |
| PeriodWait.NextReleaseIsFirst | src/task_info_t.cpp:903-922 | No release event fires between the call and the instant it waits for |
| Channel.Buffer.Store | src/synch_comm/fifo_buffer.hpp:592-817 | The final FIFO write: appended in order if a slot is free, blocked otherwise |
| Channel.Buffer.Load | src/synch_comm/fifo_buffer.hpp:373-459 | The FIFO read: the oldest value; the number of occupied slots does not change until the update phase |
| Channel.Buffer.Update | src/synch_comm/fifo_buffer.hpp:373-459 | The update phase makes everything written readable and frees every slot read |
| Channel.SlotsHeld | src/synch_comm/fifo_buffer.hpp:373-817 | In every reachable state the occupied slots are the values stored less those read before the last update phase, and the readable values those stored before it less those read |
| Channel.Buffer.InitialWrite | src/synch_comm/fifo_buffer.hpp:543-571 | An initial token counts as a completed transfer on a mapped channel |
| Channel.AfterKeepsInv | src/synch_comm/fifo_buffer.hpp:373-817 | Every move of writer, reader, interface or other channels keeps order, transfer count and capacity, a writer held by a finite transmit buffer included |
| Channel.ReadsArePrefix | src/synch_comm/fifo_buffer.hpp:373-445 | On every route, finite transmit buffers included, and under every interleaving the values read are a prefix of the initial tokens followed by the values written |
| Channel.ReadsAfterTransfers | src/synch_comm/fifo_buffer.hpp:418-445 | On every route of a mapped channel the k-th read completes only after k completed transfers, initial tokens included |
| Channel.NoDeadlock | src/synch_comm/fifo_buffer.hpp:679-817 | With capacity at least 1, when nothing can move a writer not held by a finite transmit buffer faces a full buffer and an idle reader, and a blocked reader has read every value written except one so held |
| NetworkInterface.InsertStable | src/network_interface.cpp:122-123 | A request goes behind the earlier requests of its own time and leaves other times as they were |
| NetworkInterface.Interface.RequestSending | src/network_interface.cpp:92-129 | A request is accepted exactly if it fits or the buffer is unbounded; the data counter is the sizes held and the room counter the rest of the buffer, modulo the word, and exactly so in finite mode |
| NetworkInterface.CountersModulo | src/network_interface.cpp:126-127 | What the books say of the two counters in either mode, as remainders of a 32-bit word |
| NetworkInterface.Interface.NextTransfer | src/network_interface.cpp:207-289 | The first request of least time and schedule position; the error branch exactly for an empty queue or simultaneous requests none of which is scheduled |
| NetworkInterface.Interface.StaticCommDispatch | src/network_interface.cpp:257-289 | The nested search finds the first request of least schedule position, or that none is scheduled |
| NetworkInterface.Interface.Dispatch | src/network_interface.cpp:207-255 | The chosen request leaves the queue for the link, and the books balance |
| NetworkInterface.Interface.Complete | src/network_interface.cpp:194-202 | The semaphore of the transferred request is posted once and its room released, without wrap-around in finite mode |
| NetworkInterface.BooksAccept | src/network_interface.cpp:92-129 | Accepting keeps room plus data equal to the buffer size and accepted requests equal to posted plus held |
| NetworkInterface.BooksComplete | src/network_interface.cpp:194-202 | So does completing |
| NetworkInterface.DrainSorted | src/network_interface.cpp:207-289 | A drained queue is a permutation ordered by request time and then schedule position |
| NetworkInterface.DrainStable | src/network_interface.cpp:207-289 | Requests of equal time and position keep their order |
| NetworkInterface.DrainFails | src/network_interface.cpp:257-289 | Draining meets the error branch if and only if some instant has two requests missing from a schedule in use |
| NetworkInterface.DrainAll | src/network_interface.cpp:137-204 | Repeated dispatch and completion posts exactly the drained order |
| SenderWakeUp.ReachableInv | src/network_interface.cpp:92-204 | Room, queued and travelling sizes always make up a finite buffer |
| SenderWakeUp.ProgressExactly | src/network_interface.cpp:109-156 | With transfers that take time, and under every interleaving and order of transfer, no state in which only a new request can happen leaves a sender blocked, if and only if any two sizes in use fit into the buffer together |
| SenderWakeUp.QuietProgress | src/network_interface.cpp:92-204 | In that case every series of moves without new requests is bounded, and where it can go no further the interface is back in its initial state, nothing queued or blocked and the whole buffer free |
| SenderWakeUp.QuietBounded | src/network_interface.cpp:92-204 | Without new requests every series of moves is bounded, for any sizes and transfer times |
| SenderWakeUp.FailsExactly | src/network_interface.cpp:145-154 | Transfers taking time, the interface can be woken before an empty queue, the error branch of `dispatch`, if and only if some two of the message sizes in use do not fit into the buffer together |
| SenderWakeUp.Overtaken | src/network_interface.cpp:112-117 | For every positive size of which two fit, a reachable state that returns to itself while a newer request is accepted and the blocked sender refused |
| SenderWakeUp.WaitingExactly | src/network_interface.cpp:109-156 | Whatever the buffer, a sender can be kept waiting for ever, stranded or overtaken, if and only if some message has a positive size |
| SenderWakeUp.PairsProgress | src/network_interface.cpp:109-156 | If any two sizes fit, whenever only a new request can happen the interface is back in its initial state: no message queued, no sender blocked, no failure and the whole buffer free |
| SenderWakeUp.DispatchAdmitsNone | src/network_interface.cpp:152-156 | A sender that tests the room after a dispatch and before that transfer ends is admitted only if it fits into the room there was at the dispatch |
| SenderWakeUp.RefusedStays | src/network_interface.cpp:112-117 | Senders that would all be refused are all refused, whatever else happens before the transfer ends |
| SenderWakeUp.PairStrands | src/network_interface.cpp:109-117 | For any two sizes that do not fit together, a run that leaves a sender blocked for good before an empty buffer |
| SenderWakeUp.LostWakeUp | src/network_interface.cpp:109-117 | Such a run with two messages of size 3 and a buffer of 4 |
| SenderWakeUp.InstantTransferForgotten | src/network_interface.cpp:145-204 | With transfers that take no time, a run that leaves an accepted message in the queue for good although all sizes fit |
| ActivityTrace.Recorder.constructor | src/tikz_activity_trace.cpp:1471-1516 | The dump at the start time agrees with the history |
| ActivityTrace.Recorder.Activate | src/tikz_activity_trace.cpp:1518-1580 | Stamps stay strictly increasing and within the limit, the index map inverts them, every table agrees with the history, and collection ends exactly when one stamp too many comes |
| ActivityTrace.Recorder.TraceAgrees | src/tikz_activity_trace.cpp:1543-1560 | The last table entry at or before any recorded stamp is the task's final state at that instant |
| ActivityTrace.UnitNearest | src/tikz_activity_trace.cpp:265 | The time unit is a nearest whole one to the largest gap over the separation, and 0 exactly if the separation exceeds twice the largest gap |
| ActivityTrace.SpanBounds | src/tikz_activity_trace.cpp:272-281 | Spans lie between 1 and the maximum separation and grow with the gap |
| ActivityTrace.SpanExact | src/tikz_activity_trace.cpp:272-281 | A gap is drawn with the fewest time units that exceed it, up to the maximum separation, and with no other number |
| ActivityTrace.WholeSeparation | src/tikz_activity_trace.cpp:272-281 | A gap, the largest included, is drawn with the maximum separation if and only if it holds all but one of that many units |
| ActivityTrace.LargestWhole | src/tikz_activity_trace.cpp:265-281 | The largest gap is, in particular, whenever the unit was not rounded up |
| ActivityTrace.LargestFallsShort | src/tikz_activity_trace.cpp:265-281 | A largest gap of 15 drawn with 8 instead of 10 |
| ActivityTrace.SpansWithin | src/tikz_activity_trace.cpp:272-281 | All spans of the vector lie between 1 and the maximum separation, which exactly the gaps that fill it get |
| ActivityTrace.LargestGap | src/tikz_activity_trace.cpp:257-264 | The loop finds the largest gap between consecutive stamps |
| ActivityTrace.ComputeLocations | src/tikz_activity_trace.cpp:249-281 | Spans of all gaps by the rounded unit, and the positions that add them up; an error with fewer than two stamps, and no span defined when the unit is 0 |
| ActivityTrace.GetSpan | src/tikz_activity_trace.cpp:654-663 | The difference of two positions is the sum of the spans between them |
| ActivityTrace.WriteActivityPath | src/tikz_activity_trace.cpp:748-828 | Every entry of a task is drawn at the position of its stamp, and the whole path ends at the last position, with one move more exactly if the last entry is not at the last stamp |

## Left out

- SystemC itself, reports, verbosity, files, `sc_stop` and the global time limit: foreign code or I/O; the events that reach a process are inputs of the model.
- Energy and power metrics, unit conversion and floating-point rounding: utilizations and ratios of times are exact.
- The XML front end, TikZ text, drawing, annotation and version printing: plumbing and presentation.
- `comm_res`, `link_t`, `link_info_t`, name resolution and mapping: a transfer takes an arbitrary time, and a channel is mapped or not for its whole life.
- `link_t::operator<`, which is not a strict weak order as written, and analysis tables a user extends; the default table is modelled with the order as written.
- `std::sort` and the map containers: the priority table is any sorted permutation, maps are sequences in key order.
- `shared_var`, `message_t`, random scheduling, same-priority load analysis, user dynamic policies, `yield` and throughput monitors.
- Cooperative and non-preemptive triggering and non-zero scheduling times in `Kernel`; `Platform` has scheduling times of any length.
- The endless loop of `scheduler_proc`: its segments between waits are the moves of `Platform` and the methods of `Dispatching.Scheduler` and `ProcessingElement.Element`.
- Release phases and task bodies other than "consume the WCET, then wait for the period" in `Kernel`; a call of `wait_period` at a release instant is taken to precede the release event of that instant.
- The clustered compact trace (`src/tikz_activity_trace.cpp:1584`): the same recorder over merged states.
- Progress of senders blocked on a finite transmit buffer while requests go on, or whose messages do not fit in pairs, or with transfers that take no time: the code does not provide it, see `SenderWakeUp`. `Channel` therefore says nothing of when a held writer is admitted.
- LoadAnalysis.ContainedExactly: exact for the coded response satisfying its own demand; a response that does not may still lie above the true one.
- Hyperperiod.Lcm2: the operands are taken as whole nanoseconds; the truncation of periods to nanoseconds is not modelled.
