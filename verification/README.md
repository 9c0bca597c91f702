# CPU scheduling policies

A model of the scheduling-policy engine of a browser-based CPU-scheduling
simulator. Each `simulate*` function takes a list of tasks (id, arrival time,
burst, priority) and does three things:

- It runs a single processor under one policy.
- It records a timeline of segments: a task or IDLE, from `start` to `end`.
- It fills in each task's waiting and turnaround times and reports the final clock.

There are three shapes of driver, each modelled once and proved once:

- **Whole burst** (`WholeBurst`, `Fcfs`, `NonPreemptive`): FCFS and non-preemptive SJF, Priority and Focus.
  - Each pass either runs the chosen arrived task for its whole burst in one segment,
  - or idles to the next arrival.
- **Round Robin** (`RoundRobin`): a FIFO queue fed in (arrival, id) order.
  - The head runs for `min(remaining, quantum)`.
  - Tasks that arrived during the slice join the queue before the preempted task goes back to the end.
- **Unit step** (`Preemptive`): preemptive SJF, SRTF, preemptive Priority and preemptive Focus.
  - Each time unit the policy picks an available task and runs it for one unit.
  - A task's segment stays open while it keeps being picked.
  - The segment is closed at a switch or at completion.
  - With nothing available the processor idles to the earliest unfinished arrival.

The shared facts live in `Processes` (the task record), `Timeline`
(contiguity, busy time), `Ordering` (the comparators and the stable sort),
`Selectors` (the picks) and `Schedule` (what a complete run is). `Metrics`
models the figures `finishMetrics` reports.

A task is identified by its position in the working list. This plays the role
of JavaScript object identity: `pending.indexOf(pick)` and `lastTask !== current`.

Tie-breaks follow the code exactly:

- `list.sort(cmp)[0]` is a stable sort.
  - Among the tasks the comparator ranks lowest, it yields the first in list order.
  - `Ordering.StableSort` is an insertion sort with the position as the last tie-break.
  - `Ordering.StableSortIsTheStableSort` proves that it is the unique stable sort.
- `reduce((a, b) => a.k < b.k ? a : b)` keeps the right operand on a tie, so it yields the LAST minimum in list order (`Selectors.Supersedes`).
  - This applies to preemptive SJF and preemptive Priority.
- `reduce((a, b) => a.k <= b.k ? a : b)` keeps the left operand, so it yields the FIRST minimum (`Ordering.Precedes`).
  - This applies to SRTF, over the list sorted by (arrival, id).

`script.js` repeats several policies as standalone copies: FCFS, SJF, Priority, RR, SRTF and Focus. They have the same branches, comparators and constants as the `algos/` files, so one model covers both. The rows below cite both places.

Callers only build tasks with `burst >= 1` and run RR with `quantum >= 1`: the form clamps both.
These are the preconditions `ValidBursts` and `quantum >= 1`.
Arrival times are any integers.

## Model

| member | source | states |
|---|---|---|
| Processes.Reset | OS/OS/algos/fcfs.js:7 | Every driver starts each task WAITING with its whole burst remaining and keeps its inputs. |
| Ordering.CompareOrder | OS/OS/algos/sjf_non.js:14 | Each `a.f - b.f \|\| a.g - b.g` comparator is antisymmetric and transitive, for ties and for strict order. |
| Ordering.PrecedesOrder | OS/OS/algos/sjf_non.js:14-15 | Comparator order with the list position as the final tie-break is a strict total order. |
| Ordering.Insert | OS/OS/algos/sjf_non.js:14 | Inserting into a sorted list keeps it sorted and adds exactly the one entry. |
| Ordering.StableSort | OS/OS/algos/sjf_non.js:14 | `arrived.sort(cmp)` yields a rearrangement of its input sorted by comparator and then by position. |
| Ordering.StableSortIsTheStableSort | OS/OS/algos/focus_preemptive.js:43 | StableSort is a stable sort (comparator order, ties keep list order), and every stable sort of the same list equals it. |
| Ordering.SortedUnique | OS/OS/algos/focus_preemptive.js:43 | Two lists sorted by comparator-then-position that hold the same entries are equal. |
| Ordering.StableSortHead | OS/OS/algos/sjf_non.js:14-15 | `sort(cmp)[0]` is an entry of the list that comes before every other entry by comparator and then by position. |
| Ordering.ByArrivalSorted | OS/OS/algos/fcfs.js:6 | Sorting by `arrival - arrival \|\| id - id` keeps every task exactly once, orders by arrival then id, and is the stable sort of the input. |
| Ordering.ArrivalOrder | OS/OS/algos/rr.js:4 | After the (arrival, id) sort, arrivals never decrease along the list and each task precedes the later ones. |
| Selectors.Filter | OS/OS/algos/sjf_preemptive.js:21 | `filter` keeps exactly the entries whose task passes the test, in their original order. |
| Selectors.MinArrival | OS/OS/algos/sjf_non.js:18 | The idle target is an arrival that one of the listed tasks has and that no listed task's arrival is below. |
| Selectors.PickArrived | OS/OS/algos/sjf_non.js:10-15 | There is no pick exactly when no pending task has arrived. Otherwise the pick is an arrived pending task that precedes every other arrived pending task. |
| Selectors.Reduce | OS/OS/algos/sjf_preemptive.js:40 | The `<` reduction yields a task that beats every other by a lower key or an equal key and a later position. The `<=` reduction (line 123) yields one that wins by a lower key or an equal key and an earlier position. |
| Selectors.Choose | OS/OS/algos/priority_preemptive.js:40 | Each preemptive policy's choice is a listed available task that the policy prefers over every other listed one. |
| Selectors.PickAvailable | OS/OS/algos/focus_preemptive.js:24-44 | There is no pick exactly when no task has arrived with time remaining. Otherwise the pick is such a task and the policy prefers it over every other. |
| Timeline.AppendFacts | OS/OS/algos/fcfs.js:49-54 | Appending a segment adds its length to its occupant's busy time and makes its end that occupant's last end. It keeps the chain only if it starts where the chain ended. |
| Timeline.ChainContiguous | OS/OS/algos/fcfs.js:13-56 | The timeline starts at 0 and ends at the final clock. Every segment is non-empty and starts where the previous one ended; segments never overlap. |
| Timeline.ChainLength | OS/OS/algos/fcfs.js:56 | The final clock is the total length of the segments. |
| Timeline.LengthSplit | OS/OS/algos/fcfs.js:23-56 | The timeline's length is the idle time plus each task's busy time. |
| Timeline.BusyWithin | OS/OS/algos/rr.js:50-58 | A task that only runs after time `from` is busy for at most its last end minus `from`. |
| Schedule.RunTotals | OS/OS/algos/fcfs.js:39-59 | In a complete run, each waiting time is >= 0, turnaround = waiting + burst, and the final clock is the sum of the bursts plus the idle time. |
| Schedule.IdleFrame | OS/OS/algos/sjf_non.js:19-28 | Idle segments stay justified when no idle segment is added, no arrival changes, and completed tasks stay completed with the same finish time. |
| Schedule.IdleAppend | OS/OS/algos/sjf_non.js:17-27 | An idle segment may be appended when it ends at some task's arrival and every task arriving before that had completed by its start. |
| WholeBurst.Complete | OS/OS/algos/fcfs.js:39-60 | A dispatch starting at `clock` sets waiting = clock - arrival and turnaround = clock + burst - arrival, marks the task COMPLETED and changes no other task. |
| WholeBurst.RunStep | OS/OS/algos/sjf_non.js:31-55 | Running the chosen arrived task whole keeps the invariants: contiguous timeline, one-piece segments, waiting >= 0, every dispatch by the policy's order, and idling only while nothing is ready. |
| WholeBurst.IdleStep | OS/OS/algos/sjf_non.js:17-28 | Idling to a later time while no waiting task has arrived keeps the same invariant. |
| WholeBurst.RunWhole | OS/OS/algos/fcfs.js:33-60 | The RUNNING, waiting, segment, clock and COMPLETED updates of one dispatch complete exactly that task, with one segment [clock, clock + burst). |
| Fcfs.Next | OS/OS/algos/fcfs.js:17-64 | One iteration starts task `i` at the later of the clock and its arrival, with an IDLE segment from the clock to its arrival when it has not arrived. It runs the task whole to start + burst and completes exactly that task. The invariant is kept, and `i` starts no earlier than every previous task finished. |
| Fcfs.CatchUp | OS/OS/algos/fcfs.js:19-31 | When the clock is before task `i`'s arrival, one IDLE segment runs up to that arrival and the clock moves there; otherwise nothing changes. Every idle segment ends at some task's arrival, and every task that arrives before it ends had already completed when it began. |
| Fcfs.SimulateFCFS | OS/OS/algos/fcfs.js:4-70 | The run keeps the tasks in (arrival, id) order and covers [0, clock). Each task runs exactly its burst, in one piece, after it arrived, in list order. Every idle segment ends at some task's arrival, and every task that arrives before it ends had already completed when it began. `remaining` stays equal to the burst. The copy is at OS/OS/script.js:202-269. |
| NonPreemptive.Remove | OS/OS/algos/sjf_non.js:31-32 | `pending.splice(indexOf(pick), 1)` removes exactly the pick and keeps the rest in list order. |
| NonPreemptive.Next | OS/OS/algos/sjf_non.js:9-55 | One pass either idles from the clock to the earliest pending arrival, changing nothing else, when no pending task has arrived; or it removes the pick from `pending` and runs it whole from the clock, completing exactly that task. The invariant is kept, and either a task leaves `pending` or, after the idle pass, something has arrived. |
| NonPreemptive.IdleUntilArrival | OS/OS/algos/sjf_non.js:16-28 | With no arrived pending task, the clock moves to the earliest pending arrival, which is strictly later, and exactly one IDLE segment to it is appended. The tasks and `pending` are unchanged, and afterwards a pending task has arrived. |
| NonPreemptive.Dispatch | OS/OS/algos/sjf_non.js:31-55 | The pick is removed from `pending`, completed from the clock, and given one segment [clock, clock + burst); the clock moves to its end and the invariant is kept. |
| NonPreemptive.Drain | OS/OS/algos/sjf_non.js:9-56 | The loop runs until nothing is pending, and the invariant then holds with `pending` empty: every task has completed. |
| NonPreemptive.SimulateNonPreemptive | OS/OS/algos/sjf_non.js:2-60 | Every task completes, running its whole burst in one segment after it arrived, with `remaining` left equal to the burst. Each dispatch picked an arrived task ahead of every waiting arrived task by the comparator, ties going to list order. The timeline covers [0, clock). Every idle segment ends at some task's arrival, and every task that arrives before it ends had already completed when it began. |
| NonPreemptive.SimulateSJF | OS/OS/algos/sjf_non.js:2-60 | The same, ordered by (burst, arrival). The copy is at OS/OS/script.js:274-332. |
| NonPreemptive.SimulatePriority | OS/OS/algos/priority_non.js:2-60 | The same, ordered by (priority, arrival). The copy is at OS/OS/script.js:336-393. |
| NonPreemptive.SimulateFocus | OS/OS/algos/focus_non.js:3-66 | The same, ordered by (priority, arrival, id). The copy is at OS/OS/script.js:570-632. |
| RoundRobin.Admit | OS/OS/algos/rr.js:16-19 | The inner admission loop appends the next positions in list order and stops exactly where `Joined` says: at the first task that has not arrived, or the end of the list. |
| RoundRobin.Joined | OS/OS/algos/rr.js:16 | Admission from `next` stops at a position no earlier than `next`, every task before it has arrived by the clock, and the task at it (if any) has not. |
| RoundRobin.QueueGrow | OS/OS/algos/rr.js:61-69 | Admitting new positions in front of the re-queued task keeps the queue free of repeats. It then holds exactly the old entries and the new ones. |
| RoundRobin.QueueRotate | OS/OS/algos/rr.js:37-69 | `queue.shift()` followed by the optional push back keeps the queue free of repeats. The head is dropped unless it is pushed back. |
| RoundRobin.AdmitKeeps | OS/OS/algos/rr.js:61-64 | Admitting arrived tasks keeps the loop invariant wherever they enter the queue. |
| RoundRobin.Sliced | OS/OS/algos/rr.js:57-76 | After a slice the task either waits with its remaining time reduced by the slice, or completes with turnaround = clock - arrival and waiting = turnaround - burst. |
| RoundRobin.SliceKeeps | OS/OS/algos/rr.js:37-58 | A slice of `min(remaining, quantum)` units keeps the invariant. It is at least one unit long and lowers the total remaining time by its length. |
| RoundRobin.IdleKeeps | OS/OS/algos/rr.js:21-34 | With an empty queue the run idles to the next task's arrival, which is strictly later. The invariant is kept. |
| RoundRobin.WorkBound | OS/OS/algos/rr.js:14 | The remaining work (total remaining plus tasks yet to join) is never negative, so the loop measure is bounded. |
| RoundRobin.Step | OS/OS/algos/rr.js:14-80 | One pass first admits up to `Joined`. If the queue is still empty it idles to the next task's arrival and changes nothing else. Otherwise the head runs one slice as `Slice` states. The invariant is kept, and either the remaining work drops or the pass idled and the next pass will not. |
| RoundRobin.Slice | OS/OS/algos/rr.js:36-80 | The head `t` runs from the clock for `min(remaining, quantum)` units in one segment, and the clock moves to its end. Only `t` changes, by `Sliced`. The tasks that arrived by the new clock join the back of the queue, and `t` rejoins behind them exactly when it has time remaining. The invariant is kept and the total remaining time drops. |
| RoundRobin.PassesExtend | OS/OS/algos/rr.js:14 | A run extended by one pass from its last state, taken while work was left, is still a run. |
| RoundRobin.Visit | OS/OS/algos/rr.js:14-80 | One loop pass appends exactly its new state to the run, keeps the invariant, and makes progress on the loop measure. |
| RoundRobin.SimulateRR | OS/OS/algos/rr.js:2-85 | The run is a sequence of states (tasks, timeline, clock, queue, next to join) from the reset (arrival, id)-sorted list, an empty queue and time 0 to the result with the queue empty and every task joined; each step between states is one `Pass`, so the queue order of every pass is stated. Every task completes with exactly its burst run after it arrived. Every slice is at most one quantum, and only a task's completing slice is shorter. The timeline covers [0, clock). Every idle segment ends at some task's arrival, and every task that arrives before it ends had already completed when it began. The copy is at OS/OS/script.js:397-480. |
| Preemptive.Ran | OS/OS/algos/sjf_preemptive.js:62-73 | One unit lowers the remaining time by one. On reaching zero the task completes with turnaround = clock - arrival and waiting = turnaround - burst. |
| Preemptive.UnitKeeps | OS/OS/algos/sjf_preemptive.js:62-85 | One unit of an available task keeps the invariant: `completed` counts the finished tasks, each task's busy time is burst minus remaining, and idle time is justified. |
| Preemptive.AppendUnit | OS/OS/algos/sjf_preemptive.js:43-59 | A switch to a newly picked task opens a segment at the current clock, and the invariant holds after its unit. |
| Preemptive.ExtendUnit | OS/OS/algos/sjf_preemptive.js:62-64 | A unit of the task already running extends its open segment, and the invariant holds. |
| Preemptive.IdleKeeps | OS/OS/algos/sjf_preemptive.js:24-36 | Idling while no task is available keeps the invariant. |
| Preemptive.RemainingBound | OS/OS/algos/sjf_preemptive.js:19 | The total remaining time, the loop measure, is never negative. |
| Preemptive.IdleTick | OS/OS/algos/sjf_preemptive.js:24-37 | With nothing available, the run idles from the clock to the earliest arrival among unfinished tasks: later than the clock, no unfinished arrival below it, and some unfinished task arriving there. One IDLE segment is appended, and a task is available at the new clock. |
| Preemptive.RunTick | OS/OS/algos/sjf_preemptive.js:43-85 | The picked task runs exactly one unit, the clock advances by one, and no other task changes. A switch closes the previous task's segment at the current clock and opens one for the pick there; staying keeps the open segment. Completion closes the pick's segment at the new clock and leaves nothing running; otherwise the pick stays running with its segment open since the recorded start. |
| Preemptive.Tick | OS/OS/algos/sjf_preemptive.js:19-85 | One pass is a `Unit` of the policy: it idles as `IdleTick` states when the policy has no pick, and otherwise runs the policy's pick for one unit as `RunTick` states. It switches from a running task only to one the policy prefers, and keeps the invariant. |
| Preemptive.UnitProgress | OS/OS/algos/sjf_preemptive.js:19-85 | A pass changes no task's arrival, burst or priority. Either the total remaining time drops and stays non-negative, or the pass idled and the policy has a pick next. |
| Preemptive.TraceExtend | OS/OS/algos/sjf_preemptive.js:19 | A run of the policy extended by one pass from its last state, taken while a task was unfinished, is still a run of the policy. |
| Preemptive.LoopStep | OS/OS/algos/sjf_preemptive.js:19-85 | A pass from the last state of a run that keeps the invariant extends the run and keeps the invariant. |
| Preemptive.Pass | OS/OS/algos/sjf_preemptive.js:19-85 | One loop pass appends exactly its new state to the run, keeps the invariant, and makes progress on the loop measure. |
| Preemptive.Drive | OS/OS/algos/sjf_preemptive.js:19-86 | From the reset list with an empty timeline at time 0, the loop produces a run of the policy whose last state is the result. Every task of the result has finished, its specification is unchanged, and the timeline with the open segment closed is contiguous from 0 to the clock. |
| Preemptive.Done | OS/OS/algos/sjf_preemptive.js:19 | When `completed` reaches the task count, no segment is open, every task has finished, and the run is complete. |
| Preemptive.SimulatePreemptive | OS/OS/algos/sjf_preemptive.js:2-91 | The run is a sequence of states from the reset list, an empty timeline and time 0 to the returned result with nothing running. Each state but the last has an unfinished task, and each step between states is one `Unit` of the policy. Every task completes, holding the processor for exactly its burst after it arrived. The timeline covers [0, clock). Every idle segment ends at some task's arrival, and every task that arrives before it ends had already completed when it began. |
| Preemptive.SimulateSJFPreemptive | OS/OS/algos/sjf_preemptive.js:2-91 | The same, in the caller's order, with every step a `Unit` of SJFPreemptive: the least remaining time, the last tied task winning. |
| Preemptive.SimulateSRTF | OS/OS/algos/sjf_preemptive.js:92-173 | The same after the (arrival, id) sort, with every step a `Unit` of SRTF: the least remaining time, the first tied task winning. The copy is at OS/OS/script.js:485-566. |
| Preemptive.SimulatePriorityPreemptive | OS/OS/algos/priority_preemptive.js:2-91 | The same, in the caller's order, with every step a `Unit` of PriorityPreemptive: the lowest priority number, the last tied task winning. |
| Preemptive.SimulateFocusPreemptive | OS/OS/algos/focus_preemptive.js:7-94 | The same, in the caller's order, with every step a `Unit` of FocusPreemptive: by (priority, remaining), the first tied task winning. |
| Metrics.Average | OS/OS/script.js:640-641 | `total / n` is the number whose n-fold is the total. It is absent when there are no tasks, where the source divides 0 by 0. |
| Metrics.FinishMetrics | OS/OS/script.js:636-642 | The reported total time is the final clock, and each average times the task count is the corresponding total. |
| Metrics.TurnaroundSplit | OS/OS/script.js:638-639 | When every turnaround is waiting + burst, total turnaround is total waiting plus the sum of the bursts. |
| Metrics.RunSummary | OS/OS/script.js:636-642 | After any complete run: total waiting >= 0, total turnaround = total waiting + total burst, and total time = total burst + idle time. |

## Left out

- The DOM and UI wiring, the task list, event handlers and dialogs: these are I/O, not scheduling.
- The `updateGanttState` and `buildGantt` calls: the Gantt layout, its CSS classes and percentage widths. These are presentation; `updateGanttState` does not change task state.
- Segment colours and task names. A segment names its task by position.
- `await wait(speed)`, the async pacing, and `log`/export with timestamps. They do not affect the computed schedule.
- Input parsing and clamping (`parseInt … || default`, `Math.max(1, …)`): modelled as the preconditions `burst >= 1` and `quantum >= 1`.
- The rounding of the averages to two decimals (`toFixed(2)`). Averages are exact reals.
- The algorithm dispatch table in `script1.js`, and the rest of that file: it is UI selection of which driver to call.
- JavaScript number semantics: integers are unbounded. Inputs large enough to lose precision as doubles are not modelled.
- The transient RUNNING state, which the whole-burst and RR drivers set and overwrite within one step. The preemptive drivers never set it in the task record.
- The `null` value of `lastStart`: it is modelled as an integer, which the drivers only read while a task is running. After a completion or an idle pass the model leaves it at its last value, where the code sets `null`.
