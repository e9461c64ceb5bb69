/** First-come-first-served scheduling as the scheduling page computes it:
    processes are served in INPUT order (not re-sorted by arrival), each
    starting as soon as it has arrived and the previous one has finished. */
module Fcfs {
  import opened Processes

  /** Process i runs in one interval that starts at the earliest instant at
      which it has arrived and the CPU is free, and lasts its burst time. */
  predicate FcfsEntry(ps: seq<Process>, r: Report, i: nat)
    requires i < |ps| && i < |r.table| && i < |r.timeline|
  {
    var s := r.timeline[i];
    && s.proc == i
    && s.start >= ps[i].arrival
    && s.start >= FreeAt(r.timeline, i)
    && (s.start == ps[i].arrival || s.start == FreeAt(r.timeline, i))
    && s.end == s.start + ps[i].burst
    && r.table[i] == MetricsOf(ps[i], s.end)
  }

  predicate IsFcfsSchedule(ps: seq<Process>, r: Report)
  {
    && |r.table| == |ps|
    && |r.timeline| == |ps|
    && forall i :: 0 <= i < |ps| ==> FcfsEntry(ps, r, i)
  }

  /** The loop of `fcfs_scheduling`: one interval per process, in input order. */
  method Schedule(ps: seq<Process>) returns (r: Report)
    ensures IsFcfsSchedule(ps, r)
    ensures forall i :: 0 <= i < |ps| ==>
              r.table[i].waiting >= 0 && r.table[i].turnaround >= ps[i].burst
  {
    var table: seq<Metrics> := [];
    var timeline: seq<Slice> := [];
    for i := 0 to |ps|
      invariant |table| == i && |timeline| == i
      invariant forall k :: 0 <= k < i ==> FcfsEntry(ps, Report(table, timeline), k)
    {
      var start := if i == 0 then Max(0, ps[i].arrival)
                   else Max(timeline[i - 1].end, ps[i].arrival);
      var completion := start + ps[i].burst;
      ghost var before := Report(table, timeline);
      timeline := timeline + [Slice(i, start, completion)];
      table := table + [MetricsOf(ps[i], completion)];
      forall k | 0 <= k <= i
        ensures FcfsEntry(ps, Report(table, timeline), k)
      {
        if k < i {
          assert FcfsEntry(ps, before, k);
          assert FreeAt(timeline, k) == FreeAt(before.timeline, k);
        }
      }
    }
    r := Report(table, timeline);
    forall i | 0 <= i < |ps|
      ensures r.table[i].waiting >= 0 && r.table[i].turnaround >= ps[i].burst
    {
      assert FcfsEntry(ps, r, i);
      WaitingSign(ps[i], r.table[i].completion);
    }
  }

  /** The schedule contract leaves no freedom: two reports meeting it agree. */
  lemma {:induction false} ScheduleUnique(ps: seq<Process>, r1: Report, r2: Report)
    requires IsFcfsSchedule(ps, r1) && IsFcfsSchedule(ps, r2)
    ensures r1 == r2
  {
    forall i | 0 <= i < |ps|
      ensures r1.timeline[i] == r2.timeline[i] && r1.table[i] == r2.table[i]
    {
      EntryUnique(ps, r1, r2, i);
    }
  }

  lemma {:induction false} EntryUnique(ps: seq<Process>, r1: Report, r2: Report, i: nat)
    requires IsFcfsSchedule(ps, r1) && IsFcfsSchedule(ps, r2) && i < |ps|
    ensures r1.timeline[i] == r2.timeline[i] && r1.table[i] == r2.table[i]
  {
    assert FcfsEntry(ps, r1, i) && FcfsEntry(ps, r2, i);
    if i > 0 {
      EntryUnique(ps, r1, r2, i - 1);
    }
  }

  /** Sum of the burst times of ps[lo..hi). */
  function BurstSum(ps: seq<Process>, lo: nat, hi: nat): (sum: int)
    requires lo <= hi <= |ps|
    decreases hi - lo
  {
    if lo == hi then 0 else ps[lo].burst + BurstSum(ps, lo + 1, hi)
  }

  lemma {:induction false} BurstSumSnoc(ps: seq<Process>, lo: nat, hi: nat)
    requires lo <= hi < |ps|
    ensures BurstSum(ps, lo, hi + 1) == BurstSum(ps, lo, hi) + ps[hi].burst
    decreases hi - lo
  {
    if lo < hi {
      BurstSumSnoc(ps, lo + 1, hi);
    }
  }

  /** Independent description of an FCFS completion time: the CPU has been busy
      without a break since time 0 or since the arrival of some process k <= i,
      running ps[k..i] back to back, and c is the latest such end. */
  ghost predicate IsLatestBusyPeriodEnd(ps: seq<Process>, i: nat, c: int)
    requires i < |ps|
  {
    && c >= BurstSum(ps, 0, i + 1)
    && (forall k :: 0 <= k <= i ==> c >= ps[k].arrival + BurstSum(ps, k, i + 1))
    && (|| c == BurstSum(ps, 0, i + 1)
        || exists k :: 0 <= k <= i && c == ps[k].arrival + BurstSum(ps, k, i + 1))
  }

  lemma {:induction false} CompletionIsLatestBusyPeriodEnd(ps: seq<Process>, r: Report, i: nat)
    requires IsFcfsSchedule(ps, r) && i < |ps|
    ensures IsLatestBusyPeriodEnd(ps, i, r.table[i].completion)
  {
    assert FcfsEntry(ps, r, i);
    var c := r.table[i].completion;
    var s := r.timeline[i];
    assert c == s.start + ps[i].burst;
    assert BurstSum(ps, i, i + 1) == ps[i].burst by {
      assert BurstSum(ps, i + 1, i + 1) == 0;
    }
    if i == 0 {
      assert s.start == Max(0, ps[0].arrival);
    } else {
      CompletionIsLatestBusyPeriodEnd(ps, r, i - 1);
      var prev := r.table[i - 1].completion;
      assert FcfsEntry(ps, r, i - 1);
      assert FreeAt(r.timeline, i) == prev;
      assert s.start == Max(prev, ps[i].arrival);
      BurstSumSnoc(ps, 0, i);
      forall k | 0 <= k < i
        ensures BurstSum(ps, k, i + 1) == BurstSum(ps, k, i) + ps[i].burst
      {
        BurstSumSnoc(ps, k, i);
      }
      if prev >= ps[i].arrival {
        if prev != BurstSum(ps, 0, i) {
          var k :| 0 <= k <= i - 1 && prev == ps[k].arrival + BurstSum(ps, k, i);
          assert c == ps[k].arrival + BurstSum(ps, k, i + 1);
        }
      } else {
        assert c == ps[i].arrival + BurstSum(ps, i, i + 1);
      }
    }
  }

  /** With non-negative bursts the intervals follow input order without
      overlapping: every later process starts after every earlier one ends. */
  lemma {:induction false} IntervalsInInputOrder(ps: seq<Process>, r: Report, i: nat, j: nat)
    requires IsFcfsSchedule(ps, r)
    requires forall k :: 0 <= k < |ps| ==> ps[k].burst >= 0
    requires i < j < |ps|
    ensures r.timeline[i].end <= r.timeline[j].start
    decreases j - i
  {
    assert FcfsEntry(ps, r, j);
    if i + 1 < j {
      IntervalsInInputOrder(ps, r, i, j - 1);
      assert FcfsEntry(ps, r, j - 1);
    }
  }

  /** P1(AT 0, BT 4), P2(AT 1, BT 3): P2 waits 3 units behind P1. */
  lemma TwoProcessExample(r: Report)
    requires IsFcfsSchedule([Process(4, 0), Process(3, 1)], r)
    ensures r.timeline == [Slice(0, 0, 4), Slice(1, 4, 7)]
    ensures r.table == [Metrics(4, 4, 0), Metrics(7, 6, 3)]
  {
    var ps := [Process(4, 0), Process(3, 1)];
    assert FcfsEntry(ps, r, 0);
    assert FcfsEntry(ps, r, 1);
  }

  /** Input order wins over arrival order: P2 arrived at 0 but still waits
      until P1, listed first and arriving at 3, has run. */
  lemma InputOrderNotArrivalOrder(r: Report)
    requires IsFcfsSchedule([Process(5, 3), Process(2, 0)], r)
    ensures r.timeline == [Slice(0, 3, 8), Slice(1, 8, 10)]
    ensures r.table[1].waiting == 8
  {
    var ps := [Process(5, 3), Process(2, 0)];
    assert FcfsEntry(ps, r, 0);
    var s0 := r.timeline[0];
    assert s0.start == 3 by {
      assert s0.start >= 3 && (s0.start == 3 || s0.start == 0);
    }
    assert FcfsEntry(ps, r, 1);
    var s1 := r.timeline[1];
    assert s1.start == 8 by {
      assert s1.start >= 8 && (s1.start == 0 || s1.start == 8);
    }
  }
}
