/** Shared vocabulary of the three CPU schedulers: the process records they
    read, the per-process metrics table they report, and the timeline of
    execution intervals behind each Gantt chart. */
module Processes {

  /** One row of the scheduling input: the burst time and arrival time the
      page collects for process P(i+1). A process is identified by its
      position in the input (or, for SJF, in the arrival order). */
  datatype Process = Process(burst: int, arrival: int)

  /** The computed columns of the "Process Scheduling Table". */
  datatype Metrics = Metrics(completion: int, turnaround: int, waiting: int)

  /** One execution interval of the timeline: process `proc` holds the CPU
      from `start` up to (not including) `end`. */
  datatype Slice = Slice(proc: nat, start: int, end: int)

  /** What every scheduler returns: one metrics row per process and the
      ordered execution intervals. */
  datatype Report = Report(table: seq<Metrics>, timeline: seq<Slice>)

  function Max(a: int, b: int): (m: int) { if a >= b then a else b }

  function Min(a: int, b: int): (m: int) { if a <= b then a else b }

  /** Turnaround is completion minus arrival; waiting is turnaround minus burst. */
  function MetricsOf(p: Process, completion: int): (row: Metrics)
  {
    Metrics(completion, completion - p.arrival, completion - p.arrival - p.burst)
  }

  /** A table row has non-negative waiting exactly when the process finishes
      no earlier than its arrival plus its burst, which is exactly when its
      turnaround covers its burst. */
  lemma WaitingSign(p: Process, completion: int)
    ensures MetricsOf(p, completion).completion == completion
    ensures MetricsOf(p, completion).waiting >= 0 <==> completion >= p.arrival + p.burst
    ensures MetricsOf(p, completion).waiting >= 0 <==> MetricsOf(p, completion).turnaround >= p.burst
  {
  }

  function Length(s: Slice): (len: int) { s.end - s.start }

  /** The instant the CPU becomes free for the i-th entry of a timeline:
      time 0 before the first one, the end of the previous interval after. */
  function FreeAt(tl: seq<Slice>, i: nat): (t: int)
    requires i <= |tl|
  {
    if i == 0 then 0 else tl[i - 1].end
  }

  /** Number of entries of `done` that are still false. */
  function CountPending(done: seq<bool>): (c: nat)
    ensures c <= |done|
    ensures c == 0 <==> forall k :: 0 <= k < |done| ==> done[k]
  {
    if done == [] then 0
    else (if done[0] then 0 else 1) + CountPending(done[1..])
  }

  /** Marking one pending entry as done lowers the pending count by one. */
  lemma {:induction false} CountPendingMark(done: seq<bool>, k: nat)
    requires k < |done| && !done[k]
    ensures CountPending(done[k := true]) == CountPending(done) - 1
  {
    if k == 0 {
      assert done[k := true][1..] == done[1..];
    } else {
      assert done[k := true][1..] == done[1..][k - 1 := true];
      CountPendingMark(done[1..], k - 1);
    }
  }

  lemma {:induction false} CountPendingNone(done: seq<bool>)
    requires forall k :: 0 <= k < |done| ==> !done[k]
    ensures CountPending(done) == |done|
  {
    if done != [] {
      CountPendingNone(done[1..]);
    }
  }
}
