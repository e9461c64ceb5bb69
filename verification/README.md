# OS algorithms simulator — scheduling and allocation core in Dafny

The simulator is a single-page web application (`app.py`). Its sidebar
(app.py:21) offers four pages. Besides a home page and an AR/VR page
(app.py:384-707), it offers two simulation views:

- a CPU scheduling view with three algorithms: First-Come-First-Served,
  Shortest Job First (non-preemptive) and Round Robin;
- a contiguous memory allocation view with three placement strategies:
  first-fit, best-fit and worst-fit.

This project models the six algorithms and proves properties about them:

- `processes.dfy` (module `Processes`) is the shared vocabulary:
  - a process is its burst and arrival time;
  - the "Process Scheduling Table" holds completion, turnaround and waiting
    time;
  - the timeline of execution intervals is what the Gantt chart draws.
- `fcfs.dfy` (module `Fcfs`) models `fcfs_scheduling`. Processes are served in
  input order, and each one starts at the later of its arrival and the
  previous completion.
- `sjf.dfy` (module `Sjf`) models `sjf_scheduling`:
  - the processes are first sorted stably by arrival;
  - the loop then repeatedly runs, to completion, the arrived process with
    the smallest burst;
  - ties go to the first one in arrival order;
  - when nothing has arrived, the clock jumps to the earliest pending arrival.
- `round_robin.dfy` (module `RoundRobin`) models `round_robin_scheduling` as
  a pure state machine. One pass of the `while` loop is `Step`, and the loop
  is `Run`. A pass does three things:
  - it admits the arrived, unfinished and unqueued processes in input order;
  - it runs the queue head for at most one quantum, re-queueing it when
    unfinished;
  - if the queue is empty, it advances the clock by one instead.
- `allocation.dfy` (module `Allocation`) models `first_fit`, `best_fit`,
  `worst_fit` and the strategy switch behind "Simulate Allocation":
  - requests are served in order against a working copy of the block sizes;
  - `-1` marks a request that fits nowhere.

The imperative loops of the program are modelled by methods with the same
branches. These are FCFS, the SJF loop and its two `min` computations, and
the three allocation scans.

Each method's postcondition is a declarative predicate:

- `Fcfs.IsFcfsSchedule`
- `Sjf.IsSjfSchedule`
- `Allocation.IsChoice`
- `Allocation.IsPlacement`

Each predicate describes the result without reference to the loop, and
separate lemmas show that the predicate pins the result down. Worked scenarios
are proved as lemmas about those predicates or about the Round Robin state
machine.

## Model

| member | source | states |
|---|---|---|
| `Fcfs.Schedule` | app.py:75-89 | Every process gets one interval, in input order. The interval starts at its arrival or when the CPU frees up, whichever is later, and lasts its burst. The row is completion = end, turnaround = end − arrival, waiting = turnaround − burst. Waiting is never negative, and turnaround is at least the burst. |
| `Fcfs.ScheduleUnique` | app.py:82-87 | The FCFS description admits exactly one report for a given input. |
| `Fcfs.CompletionIsLatestBusyPeriodEnd` | app.py:82-87 | Independent closed form of an FCFS completion time. It is the largest of the following: the sum of all bursts up to and including i, and, for each k ≤ i, the arrival of k plus the bursts k..i. That is, the end of the busy period that contains the process. |
| `Fcfs.IntervalsInInputOrder` | app.py:82-87 | With non-negative bursts, every later process starts no earlier than every earlier process ends. The intervals never overlap and follow input order. |
| `Fcfs.TwoProcessExample` | app.py:82-89 | P1(BT 4, AT 0) and P2(BT 3, AT 1) run over [0,4) and [4,7). Their rows are (4,4,0) and (7,6,3). |
| `Fcfs.InputOrderNotArrivalOrder` | app.py:82-87 | FCFS follows input order, not arrival order. P1 is (BT 5, AT 3) and P2 is (BT 2, AT 0). P2 arrived first but runs over [8,10) and waits 8. |
| `Sjf.Insert` | app.py:130 | Inserting a later input index into a stably sorted list keeps it stably sorted, and the members are the old ones plus the new index. |
| `Sjf.SortFirst` | app.py:130 | Sorting the first n indices stably by arrival yields each of them exactly once, in stable-arrival order. |
| `Sjf.ArrivalOrder` | app.py:130 | `sorted(..., key=arrival)` yields a permutation of the process indices. It is ordered by arrival, and ties keep input order (Python's sort is stable). |
| `Sjf.ArrivalOrderUnique` | app.py:130 | There is only one stable arrival order, so the sort's result is determined. |
| `Sjf.SortedWithSameMembersEqual` | app.py:130 | Two stably sorted index lists with the same members are equal. |
| `Sjf.PickShortest` | app.py:143-147 | Returns −1 exactly when no uncompleted process has arrived by the current time. Otherwise it returns an arrived, uncompleted process whose burst is strictly smaller than every other candidate's, or equal to it with an earlier position. This is `min`'s first-minimum rule. |
| `Sjf.EarliestPending` | app.py:157-158 | The new clock value is the arrival time of some uncompleted process, and no uncompleted process arrives earlier. |
| `Sjf.DispatchStep` | app.py:149-156 | Running the picked process keeps the loop's invariant. It adds one interval [t, t+burst), and the new row is computed from its end. The completed flag is set, the remaining count drops by one, and the new dispatch obeys the SJF rules. |
| `Sjf.IdleStep` | app.py:157-158 | When nothing has arrived, the clock jumps strictly forward to the earliest pending arrival. The loop's invariant is kept, and afterwards some pending process has arrived, so the next pass dispatches. |
| `Sjf.LoopDone` | app.py:142 | When the remaining count reaches 0, the table and timeline built so far form a complete SJF report. |
| `Sjf.RunSorted` | app.py:138-158 | On arrival-sorted processes, the loop produces a timeline of one dispatch per process. Each dispatch follows the SJF rules. The rows, in arrival order, are computed from each interval's end. |
| `Sjf.Schedule` | app.py:128-158 | Sorts stably by arrival, then runs the SJF loop. Every row has non-negative waiting and a turnaround of at least the burst. |
| `Sjf.ScheduleUnique` | app.py:142-158 | The SJF description admits exactly one report for given arrival-sorted processes. The loop's result is the only one that obeys the rules. |
| `Sjf.DispatchUnique` | app.py:143-158 | After the same earlier dispatches, the rules fix the next one: its start (the CPU-free time, or the earliest pending arrival when nothing has arrived), its process and its end. |
| `Sjf.IdleOnlyWhenNothingArrived` | app.py:145-158 | A dispatch never starts before the CPU is free. It starts strictly later exactly when no pending process had arrived at the moment the CPU became free. The CPU idles only when nothing has arrived. |
| `Sjf.StartsAfterArrival` | app.py:149-152 | Every process starts after it arrives, and its waiting time is its start minus its arrival. |
| `Sjf.EqualBurstsKeepArrivalOrder` | app.py:145-147 | Between two processes with the same burst, the one earlier in arrival order is dispatched first. |
| `Sjf.SameJobsRunInInputOrder` | app.py:130-147 | Two identical processes (same burst, same arrival) run in their input order. The sort and the tie rule compose. |
| `Sjf.DispatchAt` | app.py:145-152 | Each timeline entry is a dispatch that obeys the SJF rules, and its process's row is computed from the end of its interval. |
| `Sjf.TwoProcessFirst` | app.py:143-150 | P1(BT 6, AT 0) and P2(BT 2, AT 1): only P1 has arrived at time 0, so it runs first over [0,6). |
| `Sjf.TwoProcessSecond` | app.py:143-150 | After P1 finishes at 6, P2 runs over [6,8). |
| `Sjf.TwoProcessExample` | app.py:128-158 | P1(BT 6, AT 0) and P2(BT 2, AT 1) give the timeline [0,6), [6,8) and the rows (6,6,0) and (8,7,5). P2 does not preempt P1. |
| `RoundRobin.Initial` | app.py:198-204 | Before the loop the clock is 0, the queue and chart are empty, every remaining time is the burst and every completion time is 0. The loop runs at all exactly when some burst is positive. |
| `RoundRobin.Admit` | app.py:208-210 | The arrival scan keeps the existing queue as a prefix. A process ends up in the queue exactly when it was already queued, or when it has arrived and has time left. No process is queued twice. The newly appended processes follow in increasing input index, as `enumerate` visits them. |
| `RoundRobin.Step` | app.py:207-228 | One pass of the loop keeps the chart built so far and adds at most one interval. A pass that adds none changes only the clock, by one. A pass that adds one starts it at the current time and ends it at the new time. |
| `RoundRobin.Dispatch` | app.py:212-225 | The head of the queue runs from the current time for at most one quantum, and less only when that exhausts it. Its remaining time drops by exactly the interval's length, and every other process's remaining and completion time is unchanged. The run is also never longer than the head's remaining time, so a head with work left never ends below 0. It records completion at the new time when it reaches 0, and otherwise keeps its completion time. The head leaves the front of the queue and the other entries keep their order. The head is re-appended at the back exactly when it still has time left; otherwise nothing is appended. |
| `RoundRobin.AdmitReady` | app.py:208-210 | After the scan, the queue holds only processes that have arrived and have time left, each of them once, and it holds all of them. |
| `RoundRobin.Run` | app.py:206-228 | The loop ends in a state where no process has time left, and the loop's invariant holds there. |
| `RoundRobin.Final` | app.py:197-228 | From the initial state, the loop reaches a final state where every remaining time is ≤ 0 and the invariant holds. |
| `RoundRobin.Schedule` | app.py:197-233 | The Gantt chart has these properties. The table has one row per process. Each interval lies after its process's arrival and lasts between 1 and the quantum. Intervals are back to back or separated by idle time, never overlapping. An interval shorter than the quantum is the last one of its process. The intervals of a process add up to its burst. Its completion time is the end of its last interval, or 0 when its burst is ≤ 0. Turnaround and waiting follow from completion, arrival and burst. |
| `RoundRobin.StepKeepsInv` | app.py:206-228 | One pass of the loop keeps the invariant. It either lowers the total remaining time or, when idle, brings the clock closer to the latest arrival, so the loop terminates. |
| `RoundRobin.IdlePass` | app.py:227-228 | With no process ready, a pass changes no remaining time and moves the clock towards the latest arrival. |
| `RoundRobin.DispatchPass` | app.py:212-225 | With some process ready, a pass keeps the invariant and strictly lowers the total remaining time. |
| `RoundRobin.IdleIffNothingReady` | app.py:207-228 | A pass only advances the clock by one exactly when no process has arrived with time left. Otherwise it appends an interval starting at the current time. |
| `RoundRobin.NoNegativeWaiting` | app.py:224-233 | A process with a positive burst completes no earlier than its arrival plus its burst. Its waiting time is ≥ 0, and its turnaround is ≥ its burst. |
| `RoundRobin.SliceTotalWithin` | app.py:212-217 | Intervals of a process that all lie between two instants add up to at most the distance between those instants. |
| `RoundRobin.EqualArrivalsAlternate` | app.py:197-228 | P1(BT 4, AT 0) and P2(BT 2, AT 0) with the default quantum 2 give the chart P1 [0,2), P2 [2,4), P1 [4,6). The completions are 6 and 4. |
| `RoundRobin.PreemptedBeforeNewArrival` | app.py:208-221 | P1(BT 4, AT 0) and P2(BT 2, AT 1) with the default quantum 2 give the chart P1 [0,2), P1 [2,4), P2 [4,6). P1, re-queued after its first quantum, enters the queue before P2, which arrived while P1 ran and is only admitted by the next scan. |
| `Allocation.FirstFitScan` | app.py:301-305 | Returns the lowest-indexed block whose free capacity holds the request, or −1 when none does. |
| `Allocation.BestFitScan` | app.py:310-317 | Returns a fitting block with the smallest leftover capacity, the lowest index among ties, or −1 when none fits. |
| `Allocation.WorstFitScan` | app.py:325-332 | For a non-negative request, returns a fitting block with the largest free capacity, the lowest index among ties, or −1 when none fits. |
| `Allocation.Choose` | app.py:341-346 | The strategy switch makes the choice of the selected policy. |
| `Allocation.Allocate` | app.py:297-336 | Serves the requests in order, and each entry is the policy's choice against the capacities left by the earlier requests. A placed request takes its size out of its block, and an unplaced one changes nothing. Entries are −1 or a block index. |
| `Allocation.Serve` | app.py:318-320 | Placing a request in block j lowers only block j's free capacity, by the request's size, and never below zero when the request fits. The unallocated index −1 changes nothing. |
| `Allocation.Residual` | app.py:298-305 | The working copy of the free capacities after the first requests has one entry per block. Before any request it is the block sizes, as `blocks.copy()` makes it. |
| `Allocation.ProgressExtend` | app.py:302-305 | Appending the policy's choice and taking the request out of the chosen block keeps the working copy equal to the residual capacities. |
| `Allocation.ResidualSnoc` | app.py:318-320 | Serving one more request changes only the capacity of the block it was placed in, by its size. |
| `Allocation.PlacedSnoc` | app.py:299-305 | A placement prefix extended by the policy's choice for the next request is again a placement prefix. |
| `Allocation.PlacedPrefix` | app.py:299-305 | Every prefix of a placement prefix is one. |
| `Allocation.ChoiceUnique` | app.py:310-332 | For each policy and capacity list, there is at most one block choice. |
| `Allocation.PlacementUnique` | app.py:297-336 | For each policy, block list and request list, there is at most one allocation list. |
| `Allocation.ResidualIsSizeMinusAssigned` | app.py:318-320 | A block's residual capacity is its size minus the sizes of all requests placed in it. |
| `Allocation.ResidualNonNegative` | app.py:302-304 | With non-negative block sizes, no capacity ever drops below zero along a placement. |
| `Allocation.CapacityRespected` | app.py:297-336 | With non-negative block sizes, the requests placed in a block never exceed its size. |
| `Allocation.FirstFitExample` | app.py:297-306 | Blocks [100, 500, 200] with requests [120, 50] under first-fit give [1, 0]. The 120 goes to block 1, and the 50 still fits in block 0. |
| `Allocation.BestAndWorstDiverge` | app.py:308-336 | Blocks [100, 150, 200] with request [120]: best-fit picks block 1 and worst-fit picks block 2. |
| `Processes.WaitingSign` | app.py:150-152 | A table row, built as completion, turnaround = completion − arrival and waiting = turnaround − burst, has non-negative waiting exactly when completion ≥ arrival + burst, and exactly when turnaround ≥ burst. |
| `Processes.CountPendingMark` | app.py:154-156 | Marking one pending process as completed lowers the count of pending processes by one. This mirrors `completed[...] = True` followed by `remaining_processes -= 1`. |
| `Processes.CountPendingNone` | app.py:138-140 | Before the loop, with nothing completed, the pending count is the number of processes. |

## Left out

- The Streamlit page is not modelled. This covers widgets, number inputs, the
  DataFrame rendering, the Plotly Gantt and block charts, the Three.js VR
  animation, the temporary HTML file and the browser launch. All of it is
  presentation or I/O around the algorithms.
- Input parsing is not modelled. This covers the comma-separated lists
  (`isdigit` filtering) and the number inputs' bounds. The model takes the
  parsed integers as parameters, so negative numbers, which parsing cannot
  produce, are still admitted wherever the algorithm itself handles them.
- Sjf.Schedule: requires at least one process. On an empty list the program
  raises an error at app.py:131, where unzipping the empty sorted list gives
  nothing to unpack into three names. The page's process count starts at 1
  (app.py:66).
- Process labels `P1`, `P2`, … are replaced by process indices. Slice `proc`
  is the input index for FCFS and Round Robin and the arrival-order index for
  SJF.
- The SJF program keeps only per-process start and completion times, in
  arrival order. The model also lists the dispatches in the order they
  happen, and each interval's `proc` maps it back to its arrival-order row.
  The table is kept in arrival order, as in the program. `Sjf.Schedule` also
  returns the arrival order, so rows map back to input positions.
- The allocators take `blocks` as an immutable sequence, so the program's
  `blocks.copy()` and the fact that the caller's list is left unchanged hold
  by construction.
- `float('inf')` in the best-fit scan is the `Infinity` case of
  `Allocation.Bound`.
- The allocation list is built by appending the choice for each request. The
  program fills a list preallocated with −1 instead. The results are equal.
- RoundRobin.Schedule: requires a quantum of at least 1. With a quantum ≤ 0,
  a ready process never makes progress and the program's loop does not
  terminate. The page always passes 4 (app.py:278), and the default is 2
  (`RoundRobin.DefaultQuantum`).
- RoundRobin.Final: requires a quantum of at least 1, for the same reason.
- RoundRobin.Run: is stated over states meeting the loop invariant. That
  covers every state the loop reaches from its start.
- RoundRobin.EqualArrivalsAlternate: is stated on the loop's final state. The
  report is computed from that state by `RoundRobin.Schedule`.
- RoundRobin.PreemptedBeforeNewArrival: is stated on the loop's final state,
  as above.
- Allocation.WorstFitScan: requires a non-negative request size. The scan
  starts `max_space` at −1, so with negative sizes it could skip a fitting
  block of capacity ≤ −1. Parsing only produces non-negative sizes.
- Allocation.Choose: requires a non-negative request size under worst-fit,
  for the same reason.
- Allocation.Allocate: requires non-negative request sizes under worst-fit,
  for the same reason.
- The JavaScript of the VR page (app.py:388 onwards) is not modelled. It
  runs its own animated simulation and shows average waiting and turnaround
  times, which is separate from the Python algorithms modelled here.

First-fit places the request of 50 in block 0, the first block scanned,
because 100 ≥ 50 (app.py:301-305); see `Allocation.FirstFitExample`.
