/** Round Robin scheduling as the scheduling page computes it. One pass of
    the loop first scans the processes in input order and appends to the
    ready queue every process that has arrived, has work left and is not
    queued yet; then it runs the queue head for at most one quantum and
    re-appends it if unfinished, or advances the clock by one when the queue
    is empty. A preempted process therefore re-enters the queue BEFORE the
    processes that arrived while it ran. */
module RoundRobin {
  import opened Processes

  /** The quantum `round_robin_scheduling` uses when none is given. */
  const DefaultQuantum := 2

  /** The loop variables of `round_robin_scheduling`. */
  datatype State = State(time: int, remaining: seq<int>, queue: seq<nat>,
                         gantt: seq<Slice>, completion: seq<int>)

  predicate Distinct(s: seq<nat>)
  {
    forall a, b :: 0 <= a < b < |s| ==> s[a] != s[b]
  }

  /** Before the loop: nothing has run, every process has its whole burst
      left and a completion time of 0. */
  function Initial(ps: seq<Process>): (st: State)
    ensures st.time == 0 && st.queue == [] && st.gantt == []
    ensures |st.remaining| == |ps| && |st.completion| == |ps|
    ensures forall i :: 0 <= i < |ps| ==> st.remaining[i] == ps[i].burst && st.completion[i] == 0
    ensures Unfinished(st) <==> exists i :: 0 <= i < |ps| && ps[i].burst > 0
  {
    State(0, seq(|ps|, i requires 0 <= i < |ps| => ps[i].burst), [], [], seq(|ps|, i => 0))
  }

  /** The arrival scan from process i on: every process that has arrived by
      `time`, has work left and is not in the queue is appended, in input
      order. */
  function Admit(ps: seq<Process>, remaining: seq<int>, time: int, queue: seq<nat>, i: nat): (q: seq<nat>)
    requires |remaining| == |ps| && i <= |ps|
    ensures |queue| <= |q| && q[..|queue|] == queue
    ensures forall x :: x in q <==>
              x in queue || (i <= x < |ps| && ps[x].arrival <= time && remaining[x] > 0)
    ensures Distinct(queue) ==> Distinct(q)
    ensures AppendedInOrder(q, |queue|, i)
    decreases |ps| - i
  {
    if i == |ps| then queue
    else if ps[i].arrival <= time && remaining[i] > 0 && i !in queue then
      var q := Admit(ps, remaining, time, queue + [i], i + 1);
      AdmitTaken(ps, remaining, time, queue, i, q);
      q
    else
      var q := Admit(ps, remaining, time, queue, i + 1);
      AdmitSkipped(ps, remaining, time, queue, i, q);
      q
  }

  /** The scan step that appends process i. */
  lemma AdmitTaken(ps: seq<Process>, remaining: seq<int>, time: int, queue: seq<nat>, i: nat, q: seq<nat>)
    requires |remaining| == |ps| && i < |ps|
    requires ps[i].arrival <= time && remaining[i] > 0 && i !in queue
    requires |queue + [i]| <= |q| && q[..|queue + [i]|] == queue + [i]
    requires forall x :: x in q <==>
               x in queue + [i] || (i + 1 <= x < |ps| && ps[x].arrival <= time && remaining[x] > 0)
    requires Distinct(queue + [i]) ==> Distinct(q)
    requires AppendedInOrder(q, |queue + [i]|, i + 1)
    ensures |queue| <= |q| && q[..|queue|] == queue
    ensures forall x :: x in q <==>
              x in queue || (i <= x < |ps| && ps[x].arrival <= time && remaining[x] > 0)
    ensures Distinct(queue) ==> Distinct(q)
    ensures AppendedInOrder(q, |queue|, i)
  {
    assert q[..|queue| + 1][..|queue|] == q[..|queue|];
    assert q[|queue|] == i by {
      assert q[..|queue| + 1][|queue|] == q[|queue|];
    }
    if Distinct(queue) {
      assert Distinct(queue + [i]);
    }
  }

  /** The scan step that passes over process i. */
  lemma AdmitSkipped(ps: seq<Process>, remaining: seq<int>, time: int, queue: seq<nat>, i: nat, q: seq<nat>)
    requires |remaining| == |ps| && i < |ps|
    requires !(ps[i].arrival <= time && remaining[i] > 0 && i !in queue)
    requires |queue| <= |q| && q[..|queue|] == queue
    requires forall x :: x in q <==>
               x in queue || (i + 1 <= x < |ps| && ps[x].arrival <= time && remaining[x] > 0)
    requires Distinct(queue) ==> Distinct(q)
    requires AppendedInOrder(q, |queue|, i + 1)
    ensures forall x :: x in q <==>
              x in queue || (i <= x < |ps| && ps[x].arrival <= time && remaining[x] > 0)
    ensures AppendedInOrder(q, |queue|, i)
  {
  }

  /** The entries of q from position `from` on are process indices of at
      least `lo`, in strictly increasing order. */
  predicate AppendedInOrder(q: seq<nat>, from: nat, lo: nat)
  {
    && (forall a :: from <= a < |q| ==> lo <= q[a])
    && (forall a, b :: from <= a < b < |q| ==> q[a] < q[b])
  }

  /** A process may wait in the ready queue: it exists, has work left and
      has arrived. */
  predicate Ready(ps: seq<Process>, st: State, x: nat)
    requires |st.remaining| == |ps|
  {
    x < |ps| && st.remaining[x] > 0 && ps[x].arrival <= st.time
  }

  /** One pass of the `while` loop. */
  function Step(ps: seq<Process>, quantum: int, st: State): (next: State)
    requires |st.remaining| == |ps| && |st.completion| == |ps|
    requires forall a :: 0 <= a < |st.queue| ==> st.queue[a] < |ps|
    ensures |st.gantt| <= |next.gantt| <= |st.gantt| + 1 && next.gantt[..|st.gantt|] == st.gantt
    ensures |next.gantt| == |st.gantt| ==> next == st.(time := st.time + 1)
    ensures |next.gantt| == |st.gantt| + 1 ==>
              && next.gantt[|st.gantt|].start == st.time
              && next.gantt[|st.gantt|].end == next.time
  {
    var queue := Admit(ps, st.remaining, st.time, st.queue, 0);
    if queue == [] then
      st.(time := st.time + 1, queue := queue)
    else
      assert queue[0] in queue;
      assert (st.gantt + [Slice(queue[0], st.time, Dispatch(ps, quantum, st, queue).time)])[..|st.gantt|] == st.gantt;
      Dispatch(ps, quantum, st, queue)
  }

  /** The non-idle branch of a pass: pop the head of the (admitted) queue,
      run it for at most one quantum, and re-append it if it has work left
      or record its completion time if not. */
  function Dispatch(ps: seq<Process>, quantum: int, st: State, queue: seq<nat>): (next: State)
    requires |st.remaining| == |ps| && |st.completion| == |ps|
    requires queue != [] && queue[0] < |ps|
    ensures |next.remaining| == |ps| && |next.completion| == |ps|
    ensures next.gantt == st.gantt + [Slice(queue[0], st.time, next.time)]
    ensures next.time - st.time <= quantum && next.time - st.time <= st.remaining[queue[0]]
    ensures next.time - st.time < quantum ==> next.remaining[queue[0]] <= 0
    ensures next.remaining[queue[0]] == st.remaining[queue[0]] - (next.time - st.time)
    ensures forall x :: 0 <= x < |ps| && x != queue[0] ==>
              next.remaining[x] == st.remaining[x] && next.completion[x] == st.completion[x]
    ensures next.remaining[queue[0]] == 0 ==> next.completion[queue[0]] == next.time
    ensures next.remaining[queue[0]] != 0 ==> next.completion[queue[0]] == st.completion[queue[0]]
    ensures Requeued(queue, next.queue, next.remaining[queue[0]])
  {
    var i := queue[0];
    var run := Min(quantum, st.remaining[i]);
    var time := st.time + run;
    var remaining := st.remaining[i := st.remaining[i] - run];
    State(time,
          remaining,
          if remaining[i] > 0 then queue[1..] + [i] else queue[1..],
          st.gantt + [Slice(i, st.time, time)],
          if remaining[i] == 0 then st.completion[i := time] else st.completion)
  }

  /** The head of `queue` leaves the front and goes to the back exactly when
      it has time `left`; every other entry keeps its order. */
  predicate Requeued(queue: seq<nat>, next: seq<nat>, left: int)
    requires queue != []
  {
    next == if left > 0 then queue[1..] + [queue[0]] else queue[1..]
  }

  // ---------------------------------------------------------------------
  // What the loop keeps true
  // ---------------------------------------------------------------------

  /** Every interval runs an existing process for between 1 and `quantum`
      time units, not before it arrived. */
  predicate SliceOk(ps: seq<Process>, quantum: int, s: Slice)
  {
    s.proc < |ps| && 1 <= Length(s) <= quantum && ps[s.proc].arrival <= s.start
  }

  /** The intervals follow one another without overlapping. */
  predicate Chained(g: seq<Slice>)
  {
    forall a, b :: 0 <= a < b < |g| ==> g[a].end <= g[b].start
  }

  /** No later interval belongs to the process of interval k. */
  predicate LastOfItsProcess(g: seq<Slice>, k: nat)
    requires k < |g|
  {
    forall b :: k < b < |g| ==> g[b].proc != g[k].proc
  }

  /** The CPU time process i has received in the intervals of g. */
  function SliceTotal(g: seq<Slice>, i: nat): (total: int)
  {
    if g == [] then 0
    else SliceTotal(g[..|g| - 1], i) + (if g[|g| - 1].proc == i then Length(g[|g| - 1]) else 0)
  }

  /** c is when process i finished: the end of its last interval. */
  predicate FinishedAt(g: seq<Slice>, i: nat, c: int)
  {
    && (exists k :: 0 <= k < |g| && g[k].proc == i && g[k].end == c)
    && (forall k :: 0 <= k < |g| && g[k].proc == i ==> g[k].end <= c)
  }

  /** The bookkeeping of process i agrees with the chart: it still has work
      left (no more than its burst); or it had work, has none left and completed at the end of its
      last interval; or it never had work and was never touched. */
  predicate Settled(ps: seq<Process>, st: State, i: nat)
    requires i < |ps| && |st.remaining| == |ps| && |st.completion| == |ps|
  {
    || 0 < st.remaining[i] <= ps[i].burst
    || (ps[i].burst > 0 && st.remaining[i] == 0 && FinishedAt(st.gantt, i, st.completion[i]))
    || (ps[i].burst <= 0 && st.remaining[i] == ps[i].burst && st.completion[i] == 0)
  }

  predicate Shaped(ps: seq<Process>, st: State)
  {
    |st.remaining| == |ps| && |st.completion| == |ps|
  }

  /** The ready queue lists ready processes, each once. */
  predicate QueueOk(ps: seq<Process>, st: State)
    requires Shaped(ps, st)
  {
    && Distinct(st.queue)
    && (forall a :: 0 <= a < |st.queue| ==> Ready(ps, st, st.queue[a]))
  }

  /** The chart so far: valid intervals, in order, ending by now; a short
      interval is the last one of a finished process. */
  predicate ChartOk(ps: seq<Process>, quantum: int, st: State)
    requires Shaped(ps, st)
  {
    && (forall k :: 0 <= k < |st.gantt| ==> SliceOk(ps, quantum, st.gantt[k]) && st.gantt[k].end <= st.time)
    && Chained(st.gantt)
    && (forall k :: 0 <= k < |st.gantt| && Length(st.gantt[k]) < quantum ==>
          st.gantt[k].proc < |ps| && st.remaining[st.gantt[k].proc] == 0 && LastOfItsProcess(st.gantt, k))
  }

  /** The remaining and completion times agree with the chart. */
  predicate BooksOk(ps: seq<Process>, st: State)
    requires Shaped(ps, st)
  {
    forall i :: 0 <= i < |ps| ==>
      SliceTotal(st.gantt, i) == ps[i].burst - st.remaining[i] && Settled(ps, st, i)
  }

  predicate Inv(ps: seq<Process>, quantum: int, st: State)
  {
    && quantum >= 1
    && Shaped(ps, st)
    && QueueOk(ps, st)
    && ChartOk(ps, quantum, st)
    && BooksOk(ps, st)
  }

  /** `any(rt > 0 for rt in remaining_time)` */
  predicate Unfinished(st: State)
  {
    exists i :: 0 <= i < |st.remaining| && st.remaining[i] > 0
  }

  /** Work still to do: the sum of the positive remaining times. */
  function Outstanding(rem: seq<int>): (work: nat)
  {
    if rem == [] then 0 else Max(0, rem[0]) + Outstanding(rem[1..])
  }

  /** How far the clock may still advance while the queue is empty. */
  function IdleBudget(ps: seq<Process>, time: int): (budget: nat)
  {
    Max(0, LatestArrival(ps) - time)
  }

  function LatestArrival(ps: seq<Process>): (t: int)
    ensures forall i :: 0 <= i < |ps| ==> ps[i].arrival <= t
  {
    if ps == [] then 0 else Max(ps[0].arrival, LatestArrival(ps[1..]))
  }

  /** The whole `while` loop, from a state satisfying the invariant. */
  function Run(ps: seq<Process>, quantum: int, st: State): (final: State)
    requires Inv(ps, quantum, st)
    ensures Inv(ps, quantum, final) && !Unfinished(final)
    decreases Outstanding(st.remaining), IdleBudget(ps, st.time)
  {
    if !Unfinished(st) then st
    else
      StepKeepsInv(ps, quantum, st);
      Run(ps, quantum, Step(ps, quantum, st))
  }

  /** `round_robin_scheduling`: the Gantt chart of the loop and the table
      computed from the completion times. A process with no burst time
      never runs and keeps completion time 0. */
  function Schedule(ps: seq<Process>, quantum: int): (r: Report)
    requires quantum >= 1
    ensures |r.table| == |ps|
    ensures forall k :: 0 <= k < |r.timeline| ==> SliceOk(ps, quantum, r.timeline[k])
    ensures Chained(r.timeline)
    ensures forall k :: 0 <= k < |r.timeline| && Length(r.timeline[k]) < quantum ==>
              LastOfItsProcess(r.timeline, k)
    ensures forall i :: 0 <= i < |ps| ==> SliceTotal(r.timeline, i) == Max(0, ps[i].burst)
    ensures forall i :: 0 <= i < |ps| && ps[i].burst > 0 ==>
              FinishedAt(r.timeline, i, r.table[i].completion)
    ensures forall i :: 0 <= i < |ps| && ps[i].burst <= 0 ==> r.table[i].completion == 0
    ensures forall i :: 0 <= i < |ps| ==> r.table[i] == MetricsOf(ps[i], r.table[i].completion)
  {
    var final := Final(ps, quantum);
    FinalBooks(ps, quantum, final);
    Report(seq(|ps|, i requires 0 <= i < |ps| => MetricsOf(ps[i], final.completion[i])), final.gantt)
  }

  /** Once no process has work left, the chart gives every process exactly
      its burst, and its completion time is the end of its last interval
      (or 0 if it never had work). */
  lemma FinalBooks(ps: seq<Process>, quantum: int, final: State)
    requires Inv(ps, quantum, final) && !Unfinished(final)
    ensures forall i :: 0 <= i < |ps| ==> SliceTotal(final.gantt, i) == Max(0, ps[i].burst)
    ensures forall i :: 0 <= i < |ps| && ps[i].burst > 0 ==> FinishedAt(final.gantt, i, final.completion[i])
    ensures forall i :: 0 <= i < |ps| && ps[i].burst <= 0 ==> final.completion[i] == 0
  {
    forall i | 0 <= i < |ps|
      ensures SliceTotal(final.gantt, i) == Max(0, ps[i].burst)
      ensures ps[i].burst > 0 ==> FinishedAt(final.gantt, i, final.completion[i])
      ensures ps[i].burst <= 0 ==> final.completion[i] == 0
    {
      assert Settled(ps, final, i);
      assert final.remaining[i] <= 0;
    }
  }

  /** The state in which the loop ends. */
  function Final(ps: seq<Process>, quantum: int): (final: State)
    requires quantum >= 1
    ensures Inv(ps, quantum, final) && !Unfinished(final)
  {
    InitialInv(ps, quantum);
    Run(ps, quantum, Initial(ps))
  }

  // ---------------------------------------------------------------------
  // Proofs about one pass
  // ---------------------------------------------------------------------

  lemma InitialInv(ps: seq<Process>, quantum: int)
    requires quantum >= 1
    ensures Inv(ps, quantum, Initial(ps))
  {
  }

  lemma {:induction false} OutstandingUpdate(rem: seq<int>, i: nat, v: int)
    requires i < |rem|
    ensures Outstanding(rem[i := v]) == Outstanding(rem) - Max(0, rem[i]) + Max(0, v)
  {
    if i == 0 {
      assert rem[i := v][1..] == rem[1..];
    } else {
      assert rem[i := v][1..] == rem[1..][i - 1 := v];
      OutstandingUpdate(rem[1..], i - 1, v);
    }
  }

  lemma SliceTotalSnoc(g: seq<Slice>, s: Slice, i: nat)
    ensures SliceTotal(g + [s], i) == SliceTotal(g, i) + (if s.proc == i then Length(s) else 0)
  {
    assert (g + [s])[..|g|] == g;
  }

  /** The admitted queue holds only ready processes, once each, and holds
      every process that is ready. */
  lemma AdmitReady(ps: seq<Process>, quantum: int, st: State)
    requires Inv(ps, quantum, st)
    ensures var q := Admit(ps, st.remaining, st.time, st.queue, 0);
      && Distinct(q)
      && (forall a :: 0 <= a < |q| ==> Ready(ps, st, q[a]))
      && (forall x :: 0 <= x < |ps| && Ready(ps, st, x) ==> x in q)
  {
    var q := Admit(ps, st.remaining, st.time, st.queue, 0);
    forall a | 0 <= a < |q|
      ensures Ready(ps, st, q[a])
    {
      assert q[a] in q;
      if q[a] in st.queue {
        var b :| 0 <= b < |st.queue| && st.queue[b] == q[a];
      }
    }
  }

  lemma StepKeepsInv(ps: seq<Process>, quantum: int, st: State)
    requires Inv(ps, quantum, st) && Unfinished(st)
    ensures Inv(ps, quantum, Step(ps, quantum, st))
    ensures var next := Step(ps, quantum, st);
      || Outstanding(next.remaining) < Outstanding(st.remaining)
      || (Outstanding(next.remaining) == Outstanding(st.remaining)
          && IdleBudget(ps, next.time) < IdleBudget(ps, st.time))
  {
    if Admit(ps, st.remaining, st.time, st.queue, 0) == [] {
      IdlePass(ps, quantum, st);
    } else {
      DispatchPass(ps, quantum, st);
    }
  }

  /** With nothing ready, a pass keeps the invariant and moves the clock
      towards the latest arrival. */
  lemma IdlePass(ps: seq<Process>, quantum: int, st: State)
    requires Inv(ps, quantum, st) && Unfinished(st)
    requires Admit(ps, st.remaining, st.time, st.queue, 0) == []
    ensures Inv(ps, quantum, Step(ps, quantum, st))
    ensures Step(ps, quantum, st).remaining == st.remaining
    ensures IdleBudget(ps, Step(ps, quantum, st).time) < IdleBudget(ps, st.time)
  {
    AdmitReady(ps, quantum, st);
    var x :| 0 <= x < |st.remaining| && st.remaining[x] > 0;
    assert !Ready(ps, st, x);
    assert st.queue == [] by {
      assert |st.queue| <= |Admit(ps, st.remaining, st.time, st.queue, 0)|;
    }
    IdleKeepsInv(ps, quantum, st);
  }

  /** With a process ready, a pass keeps the invariant and lowers the
      outstanding work. */
  lemma DispatchPass(ps: seq<Process>, quantum: int, st: State)
    requires Inv(ps, quantum, st)
    requires Admit(ps, st.remaining, st.time, st.queue, 0) != []
    ensures Inv(ps, quantum, Step(ps, quantum, st))
    ensures Outstanding(Step(ps, quantum, st).remaining) < Outstanding(st.remaining)
  {
    var q := Admit(ps, st.remaining, st.time, st.queue, 0);
    AdmitReady(ps, quantum, st);
    assert q[0] in q;
    assert Ready(ps, st, q[0]);
    StepTo(ps, quantum, st, q);
    DispatchKeepsInv(ps, quantum, st, q);
    OutstandingUpdate(st.remaining, q[0], st.remaining[q[0]] - Min(quantum, st.remaining[q[0]]));
  }

  /** An idle pass only advances the clock. */
  lemma IdleKeepsInv(ps: seq<Process>, quantum: int, st: State)
    requires Inv(ps, quantum, st) && st.queue == []
    ensures Inv(ps, quantum, st.(time := st.time + 1))
  {
    var next := st.(time := st.time + 1);
    assert forall i :: 0 <= i < |ps| ==> Settled(ps, st, i) ==> Settled(ps, next, i);
  }

  lemma DispatchKeepsInv(ps: seq<Process>, quantum: int, st: State, q: seq<nat>)
    requires Inv(ps, quantum, st)
    requires q != [] && Ready(ps, st, q[0]) && Distinct(q) && forall a :: 0 <= a < |q| ==> Ready(ps, st, q[a])
    ensures Inv(ps, quantum, Dispatch(ps, quantum, st, q))
  {
    assert Ready(ps, st, q[0]);
    DispatchQueueOk(ps, quantum, st, q);
    DispatchChartOk(ps, quantum, st, q);
    DispatchBooksOk(ps, quantum, st, q);
  }

  lemma DispatchQueueOk(ps: seq<Process>, quantum: int, st: State, q: seq<nat>)
    requires Inv(ps, quantum, st)
    requires q != [] && Ready(ps, st, q[0]) && Distinct(q) && forall a :: 0 <= a < |q| ==> Ready(ps, st, q[a])
    ensures Shaped(ps, Dispatch(ps, quantum, st, q))
    ensures QueueOk(ps, Dispatch(ps, quantum, st, q))
  {
    assert Ready(ps, st, q[0]);
    var next := Dispatch(ps, quantum, st, q);
    assert st.time <= next.time;
    PopKeepsQueueOk(ps, st, next, q);
  }

  /** Popping the head of a queue of ready processes, and re-appending it
      when it still has work, leaves a queue of ready processes, each once. */
  lemma PopKeepsQueueOk(ps: seq<Process>, st: State, next: State, q: seq<nat>)
    requires Shaped(ps, st) && Shaped(ps, next) && st.time <= next.time
    requires q != [] && Ready(ps, st, q[0]) && Distinct(q) && forall a :: 0 <= a < |q| ==> Ready(ps, st, q[a])
    requires forall x :: 0 <= x < |ps| && x != q[0] ==> next.remaining[x] == st.remaining[x]
    requires Requeued(q, next.queue, next.remaining[q[0]])
    ensures QueueOk(ps, next)
  {
    var i := q[0];
    var rest := q[1..];
    assert Ready(ps, st, i);
    assert forall a :: 0 <= a < |rest| ==> rest[a] == q[a + 1];
    assert forall a :: 0 <= a < |rest| ==> rest[a] != i && Ready(ps, st, rest[a]);
    assert forall a :: 0 <= a < |rest| ==> Ready(ps, next, rest[a]);
    if next.remaining[i] > 0 {
      assert next.queue == rest + [i];
      assert Ready(ps, next, i);
    } else {
      assert next.queue == rest;
    }
  }

  lemma DispatchChartOk(ps: seq<Process>, quantum: int, st: State, q: seq<nat>)
    requires Inv(ps, quantum, st)
    requires q != [] && Ready(ps, st, q[0])
    ensures ChartOk(ps, quantum, Dispatch(ps, quantum, st, q))
  {
    var next := Dispatch(ps, quantum, st, q);
    var i := q[0];
    var run := Min(quantum, st.remaining[i]);
    var s := Slice(i, st.time, st.time + run);
    assert next.gantt == st.gantt + [s];
    forall k | 0 <= k < |next.gantt| && Length(next.gantt[k]) < quantum
      ensures next.gantt[k].proc < |ps| && next.remaining[next.gantt[k].proc] == 0
      ensures LastOfItsProcess(next.gantt, k)
    {
      if k < |st.gantt| {
        assert next.gantt[k] == st.gantt[k];
      }
    }
  }

  lemma DispatchBooksOk(ps: seq<Process>, quantum: int, st: State, q: seq<nat>)
    requires Inv(ps, quantum, st)
    requires q != [] && Ready(ps, st, q[0])
    ensures BooksOk(ps, Dispatch(ps, quantum, st, q))
  {
    var next := Dispatch(ps, quantum, st, q);
    var i := q[0];
    var run := Min(quantum, st.remaining[i]);
    var s := Slice(i, st.time, st.time + run);
    assert next.gantt == st.gantt + [s];
    forall j | 0 <= j < |ps|
      ensures SliceTotal(next.gantt, j) == ps[j].burst - next.remaining[j]
      ensures Settled(ps, next, j)
    {
      SliceTotalSnoc(st.gantt, s, j);
      assert Settled(ps, st, j);
      if j == i {
        if next.remaining[i] == 0 {
          assert next.completion[i] == s.end;
          assert next.gantt[|st.gantt|] == s;
          forall k | 0 <= k < |next.gantt| && next.gantt[k].proc == i
            ensures next.gantt[k].end <= s.end
          {
            if k < |st.gantt| {
              assert next.gantt[k] == st.gantt[k];
            }
          }
          assert FinishedAt(next.gantt, i, next.completion[i]);
        }
      } else {
        assert next.remaining[j] == st.remaining[j] && next.completion[j] == st.completion[j];
        if st.remaining[j] == 0 && ps[j].burst > 0 {
          FinishedAtSnoc(st.gantt, s, j, st.completion[j]);
        }
      }
    }
  }

  /** Another process's interval does not change when process j finished. */
  lemma FinishedAtSnoc(g: seq<Slice>, s: Slice, j: nat, c: int)
    requires FinishedAt(g, j, c) && s.proc != j
    ensures FinishedAt(g + [s], j, c)
  {
    var k :| 0 <= k < |g| && g[k].proc == j && g[k].end == c;
    assert (g + [s])[k] == g[k];
    forall b | 0 <= b < |g + [s]| && (g + [s])[b].proc == j
      ensures (g + [s])[b].end <= c
    {
      assert b < |g|;
      assert (g + [s])[b] == g[b];
    }
  }

  // ---------------------------------------------------------------------
  // Properties of the report
  // ---------------------------------------------------------------------

  /** Intervals of process i that lie within [lo, hi] give it at most
      hi - lo time units of CPU. */
  lemma {:induction false} SliceTotalWithin(g: seq<Slice>, i: nat, lo: int, hi: int)
    requires Chained(g)
    requires forall k :: 0 <= k < |g| ==> Length(g[k]) >= 0
    requires forall k :: 0 <= k < |g| && g[k].proc == i ==> lo <= g[k].start && g[k].end <= hi
    requires lo <= hi
    ensures SliceTotal(g, i) <= hi - lo
  {
    if g != [] {
      var init := g[..|g| - 1];
      var s := g[|g| - 1];
      assert forall k :: 0 <= k < |init| ==> init[k] == g[k];
      if s.proc == i {
        SliceTotalWithin(init, i, lo, s.start);
      } else {
        SliceTotalWithin(init, i, lo, hi);
      }
    }
  }

  /** A process with work to do completes no earlier than its arrival plus
      its burst: its waiting time is never negative. */
  lemma NoNegativeWaiting(ps: seq<Process>, quantum: int, i: nat)
    requires quantum >= 1 && i < |ps| && ps[i].burst > 0
    ensures Schedule(ps, quantum).table[i].waiting >= 0
    ensures Schedule(ps, quantum).table[i].turnaround >= ps[i].burst
  {
    var r := Schedule(ps, quantum);
    var c := r.table[i].completion;
    FinishCoversBurst(ps, quantum, r.timeline, i, c);
    WaitingSign(ps[i], c);
  }

  /** On a chart of valid, chained intervals that give process i its whole
      burst, the end of its last interval is at least its arrival plus its
      burst. */
  lemma FinishCoversBurst(ps: seq<Process>, quantum: int, g: seq<Slice>, i: nat, c: int)
    requires i < |ps| && ps[i].burst > 0
    requires forall k :: 0 <= k < |g| ==> SliceOk(ps, quantum, g[k])
    requires Chained(g)
    requires SliceTotal(g, i) == Max(0, ps[i].burst)
    requires FinishedAt(g, i, c)
    ensures c >= ps[i].arrival + ps[i].burst
  {
    var k :| 0 <= k < |g| && g[k].proc == i && g[k].end == c;
    assert SliceOk(ps, quantum, g[k]);
    SliceTotalWithin(g, i, ps[i].arrival, c);
  }

  /** A pass idles, advancing the clock by one and leaving everything else
      alone, exactly when no process is ready; otherwise it appends an
      interval that starts at the current time. In particular the queue is
      never empty once every unfinished process has arrived. */
  lemma IdleIffNothingReady(ps: seq<Process>, quantum: int, st: State)
    requires Inv(ps, quantum, st)
    ensures (forall x :: 0 <= x < |ps| ==> !Ready(ps, st, x)) ==>
              Step(ps, quantum, st) == st.(time := st.time + 1)
    ensures (exists x :: 0 <= x < |ps| && Ready(ps, st, x)) ==>
              |Step(ps, quantum, st).gantt| == |st.gantt| + 1
              && Step(ps, quantum, st).gantt[|st.gantt|].start == st.time
  {
    var q := Admit(ps, st.remaining, st.time, st.queue, 0);
    AdmitReady(ps, quantum, st);
    if q != [] {
      assert q[0] in q;
      assert Ready(ps, st, q[0]);
      assert Step(ps, quantum, st) == Dispatch(ps, quantum, st, q);
    } else {
      assert st.queue == [] by {
        assert |st.queue| <= |q|;
      }
    }
  }

  /** P1(AT 0, BT 4), P2(AT 0, BT 2), quantum 2: the two processes
      alternate. */
  lemma EqualArrivalsAlternate(ps: seq<Process>)
    requires ps == [Process(4, 0), Process(2, 0)]
    ensures Final(ps, DefaultQuantum)
            == State(6, [0, 0], [], [Slice(0, 0, 2), Slice(1, 2, 4), Slice(0, 4, 6)], [6, 4])
  {
    var s0 := State(0, [4, 2], [], [], [0, 0]);
    var s1 := State(2, [2, 2], [1, 0], [Slice(0, 0, 2)], [0, 0]);
    var s2 := State(4, [2, 0], [0], [Slice(0, 0, 2), Slice(1, 2, 4)], [0, 4]);
    var s3 := State(6, [0, 0], [], [Slice(0, 0, 2), Slice(1, 2, 4), Slice(0, 4, 6)], [6, 4]);
    assert Initial(ps) == s0;
    assert Unfinished(s0) && Unfinished(s1) && Unfinished(s2) by {
      assert s0.remaining[0] > 0 && s1.remaining[0] > 0 && s2.remaining[0] > 0;
    }
    assert Steppable(ps, s1) && Steppable(ps, s2);
    assert !Unfinished(s3);
    Alternate0(ps);
    Alternate1(ps);
    Alternate2(ps);
    FinalAfterThreePasses(ps, 2, s0, s1, s2, s3);
  }

  lemma Alternate0(ps: seq<Process>)
    requires ps == [Process(4, 0), Process(2, 0)]
    ensures Step(ps, 2, State(0, [4, 2], [], [], [0, 0]))
            == State(2, [2, 2], [1, 0], [Slice(0, 0, 2)], [0, 0])
  {
    Alternate0Admit(ps);
    StepTo(ps, 2, State(0, [4, 2], [], [], [0, 0]), [0, 1]);
  }

  /** At time 0 both processes have arrived and are queued in input order. */
  lemma Alternate0Admit(ps: seq<Process>)
    requires ps == [Process(4, 0), Process(2, 0)]
    ensures Admit(ps, [4, 2], 0, [], 0) == [0, 1]
  {
    assert Admit(ps, [4, 2], 0, [0, 1], 2) == [0, 1];
    assert Admit(ps, [4, 2], 0, [0], 1) == [0, 1] by {
      assert [0] + [1] == [0, 1];
    }
    assert Admit(ps, [4, 2], 0, [], 0) == [0, 1] by {
      assert [] + [0] == [0];
    }
  }

  lemma Alternate1(ps: seq<Process>)
    requires ps == [Process(4, 0), Process(2, 0)]
    ensures Step(ps, 2, State(2, [2, 2], [1, 0], [Slice(0, 0, 2)], [0, 0]))
            == State(4, [2, 0], [0], [Slice(0, 0, 2), Slice(1, 2, 4)], [0, 4])
  {
    assert Admit(ps, [2, 2], 2, [1, 0], 0) == [1, 0] by {
      assert Admit(ps, [2, 2], 2, [1, 0], 0) == Admit(ps, [2, 2], 2, [1, 0], 1)
             == Admit(ps, [2, 2], 2, [1, 0], 2) == [1, 0];
    }
    StepTo(ps, 2, State(2, [2, 2], [1, 0], [Slice(0, 0, 2)], [0, 0]), [1, 0]);
  }

  lemma Alternate2(ps: seq<Process>)
    requires ps == [Process(4, 0), Process(2, 0)]
    ensures Step(ps, 2, State(4, [2, 0], [0], [Slice(0, 0, 2), Slice(1, 2, 4)], [0, 4]))
            == State(6, [0, 0], [], [Slice(0, 0, 2), Slice(1, 2, 4), Slice(0, 4, 6)], [6, 4])
  {
    assert Admit(ps, [2, 0], 4, [0], 0) == [0] by {
      assert Admit(ps, [2, 0], 4, [0], 0) == Admit(ps, [2, 0], 4, [0], 1)
             == Admit(ps, [2, 0], 4, [0], 2) == [0];
    }
    StepTo(ps, 2, State(4, [2, 0], [0], [Slice(0, 0, 2), Slice(1, 2, 4)], [0, 4]), [0]);
  }

  /** P1(AT 0, BT 4), P2(AT 1, BT 2), quantum 2: P2 arrives while P1 runs,
      yet P1, preempted at time 2, is re-queued before the arrival scan adds
      P2, so P1 runs again and P2 first gets the CPU at time 4. */
  lemma PreemptedBeforeNewArrival(ps: seq<Process>)
    requires ps == [Process(4, 0), Process(2, 1)]
    ensures Final(ps, DefaultQuantum)
            == State(6, [0, 0], [], [Slice(0, 0, 2), Slice(0, 2, 4), Slice(1, 4, 6)], [4, 6])
  {
    var s0 := State(0, [4, 2], [], [], [0, 0]);
    var s1 := State(2, [2, 2], [0], [Slice(0, 0, 2)], [0, 0]);
    var s2 := State(4, [0, 2], [1], [Slice(0, 0, 2), Slice(0, 2, 4)], [4, 0]);
    var s3 := State(6, [0, 0], [], [Slice(0, 0, 2), Slice(0, 2, 4), Slice(1, 4, 6)], [4, 6]);
    assert Initial(ps) == s0;
    assert Unfinished(s0) && Unfinished(s1) && Unfinished(s2) by {
      assert s0.remaining[0] > 0 && s1.remaining[0] > 0 && s2.remaining[1] > 0;
    }
    assert Steppable(ps, s1) && Steppable(ps, s2);
    assert !Unfinished(s3);
    Preempted0(ps);
    Preempted1(ps);
    Preempted2(ps);
    FinalAfterThreePasses(ps, 2, s0, s1, s2, s3);
  }

  lemma Preempted0(ps: seq<Process>)
    requires ps == [Process(4, 0), Process(2, 1)]
    ensures Step(ps, 2, State(0, [4, 2], [], [], [0, 0]))
            == State(2, [2, 2], [0], [Slice(0, 0, 2)], [0, 0])
  {
    Preempted0Admit(ps);
    StepTo(ps, 2, State(0, [4, 2], [], [], [0, 0]), [0]);
  }

  /** At time 0 only P1 has arrived. */
  lemma Preempted0Admit(ps: seq<Process>)
    requires ps == [Process(4, 0), Process(2, 1)]
    ensures Admit(ps, [4, 2], 0, [], 0) == [0]
  {
    assert [] + [0] == [0];
    assert Admit(ps, [4, 2], 0, [], 0) == Admit(ps, [4, 2], 0, [0], 1)
           == Admit(ps, [4, 2], 0, [0], 2) == [0];
  }

  lemma Preempted1(ps: seq<Process>)
    requires ps == [Process(4, 0), Process(2, 1)]
    ensures Step(ps, 2, State(2, [2, 2], [0], [Slice(0, 0, 2)], [0, 0]))
            == State(4, [0, 2], [1], [Slice(0, 0, 2), Slice(0, 2, 4)], [4, 0])
  {
    Preempted1Admit(ps);
    StepTo(ps, 2, State(2, [2, 2], [0], [Slice(0, 0, 2)], [0, 0]), [0, 1]);
    Preempted1Dispatch(ps);
  }

  /** At time 2 the scan finds P1 re-queued and appends P2 behind it. */
  lemma Preempted1Admit(ps: seq<Process>)
    requires ps == [Process(4, 0), Process(2, 1)]
    ensures Admit(ps, [2, 2], 2, [0], 0) == [0, 1]
  {
    assert [0] + [1] == [0, 1];
    assert Admit(ps, [2, 2], 2, [0], 0) == Admit(ps, [2, 2], 2, [0], 1)
           == Admit(ps, [2, 2], 2, [0, 1], 2) == [0, 1];
  }

  lemma Preempted1Dispatch(ps: seq<Process>)
    requires ps == [Process(4, 0), Process(2, 1)]
    ensures Dispatch(ps, 2, State(2, [2, 2], [0], [Slice(0, 0, 2)], [0, 0]), [0, 1])
            == State(4, [0, 2], [1], [Slice(0, 0, 2), Slice(0, 2, 4)], [4, 0])
  {
    assert [2, 2][0 := 0] == [0, 2] && [0, 0][0 := 4] == [4, 0];
    assert [0, 1][1..] == [1];
    assert [Slice(0, 0, 2)] + [Slice(0, 2, 4)] == [Slice(0, 0, 2), Slice(0, 2, 4)];
  }

  lemma Preempted2(ps: seq<Process>)
    requires ps == [Process(4, 0), Process(2, 1)]
    ensures Step(ps, 2, State(4, [0, 2], [1], [Slice(0, 0, 2), Slice(0, 2, 4)], [4, 0]))
            == State(6, [0, 0], [], [Slice(0, 0, 2), Slice(0, 2, 4), Slice(1, 4, 6)], [4, 6])
  {
    assert Admit(ps, [0, 2], 4, [1], 0) == [1] by {
      assert Admit(ps, [0, 2], 4, [1], 0) == Admit(ps, [0, 2], 4, [1], 1)
             == Admit(ps, [0, 2], 4, [1], 2) == [1];
    }
    StepTo(ps, 2, State(4, [0, 2], [1], [Slice(0, 0, 2), Slice(0, 2, 4)], [4, 0]), [1]);
  }

  /** A pass that finds queue q after the arrival scan dispatches q's head. */
  lemma StepTo(ps: seq<Process>, quantum: int, st: State, q: seq<nat>)
    requires Shaped(ps, st) && forall a :: 0 <= a < |st.queue| ==> st.queue[a] < |ps|
    requires Admit(ps, st.remaining, st.time, st.queue, 0) == q && q != [] && q[0] < |ps|
    ensures Step(ps, quantum, st) == Dispatch(ps, quantum, st, q)
  {
  }

  /** The states on which one pass is defined. */
  predicate Steppable(ps: seq<Process>, st: State)
  {
    && |st.remaining| == |ps| && |st.completion| == |ps|
    && forall a :: 0 <= a < |st.queue| ==> st.queue[a] < |ps|
  }

  /** A loop that needs exactly three passes from the initial state ends in
      the state the third pass reaches. */
  lemma FinalAfterThreePasses(ps: seq<Process>, quantum: int, s0: State, s1: State, s2: State, s3: State)
    requires quantum >= 1 && Initial(ps) == s0
    requires Unfinished(s0) && Step(ps, quantum, s0) == s1
    requires Steppable(ps, s1) && Unfinished(s1) && Step(ps, quantum, s1) == s2
    requires Steppable(ps, s2) && Unfinished(s2) && Step(ps, quantum, s2) == s3
    requires !Unfinished(s3)
    ensures Final(ps, quantum) == s3
  {
    InitialInv(ps, quantum);
    RunFrom(ps, quantum, s0, s1);
    RunFrom(ps, quantum, s1, s2);
    RunFrom(ps, quantum, s2, s3);
  }

  /** The loop goes on from `st` as from the state one pass later. */
  lemma RunFrom(ps: seq<Process>, quantum: int, st: State, next: State)
    requires Inv(ps, quantum, st) && Unfinished(st) && Step(ps, quantum, st) == next
    ensures Inv(ps, quantum, next) && Run(ps, quantum, st) == Run(ps, quantum, next)
  {
    StepKeepsInv(ps, quantum, st);
  }

}
