/** Non-preemptive shortest-job-first scheduling as the scheduling page
    computes it: the processes are first sorted stably by arrival time, and
    from then on a process is identified by its position in that order. */
module Sjf {
  import opened Processes

  // ---------------------------------------------------------------------
  // The stable sort by arrival time
  // ---------------------------------------------------------------------

  /** Process i precedes process j in a stable sort by arrival time: it
      arrives earlier, or at the same time and earlier in the input. */
  predicate ArrivesBefore(ps: seq<Process>, i: nat, j: nat)
    requires i < |ps| && j < |ps|
  {
    ps[i].arrival < ps[j].arrival || (ps[i].arrival == ps[j].arrival && i < j)
  }

  /** `s` lists process indices in strictly increasing stable-arrival order. */
  predicate StablySorted(ps: seq<Process>, s: seq<nat>)
  {
    && (forall k :: 0 <= k < |s| ==> s[k] < |ps|)
    && (forall a, b :: 0 <= a < b < |s| ==> ArrivesBefore(ps, s[a], s[b]))
  }

  /** `order` is the result of sorting the processes stably by arrival:
      every process index exactly once, in stable-arrival order. */
  predicate IsArrivalOrder(ps: seq<Process>, order: seq<nat>)
  {
    && |order| == |ps|
    && StablySorted(ps, order)
    && (forall i :: 0 <= i < |ps| ==> i in order)
  }

  /** Insertion of process i behind every listed process that arrives no
      later than it; all listed processes come before i in the input. */
  function Insert(ps: seq<Process>, s: seq<nat>, i: nat): (r: seq<nat>)
    requires i < |ps| && StablySorted(ps, s)
    requires forall k :: 0 <= k < |s| ==> s[k] < i
    ensures |r| == |s| + 1
    ensures forall x :: x in r <==> x in s || x == i
    ensures StablySorted(ps, r)
  {
    if s == [] then [i]
    else if ps[s[0]].arrival <= ps[i].arrival then
      var rest := Insert(ps, s[1..], i);
      assert forall x :: x in rest ==> x in s[1..] || x == i;
      assert forall k :: 0 <= k < |rest| ==> ArrivesBefore(ps, s[0], rest[k]) by {
        forall k | 0 <= k < |rest|
          ensures ArrivesBefore(ps, s[0], rest[k])
        {
          assert rest[k] in rest;
          if rest[k] != i {
            assert rest[k] in s[1..];
            var b :| 0 <= b < |s[1..]| && s[1..][b] == rest[k];
            assert s[b + 1] == rest[k];
          }
        }
      }
      [s[0]] + rest
    else
      assert forall k :: 0 <= k < |s| ==> ArrivesBefore(ps, i, s[k]) by {
        forall k | 0 <= k < |s|
          ensures ArrivesBefore(ps, i, s[k])
        {
          if k > 0 {
            assert ArrivesBefore(ps, s[0], s[k]);
          }
        }
      }
      [i] + s
  }

  /** Insertion sort of the first n process indices. */
  function SortFirst(ps: seq<Process>, n: nat): (order: seq<nat>)
    requires n <= |ps|
    ensures |order| == n
    ensures StablySorted(ps, order)
    ensures forall k :: 0 <= k < |order| ==> order[k] < n
    ensures forall i :: 0 <= i < n ==> i in order
  {
    if n == 0 then []
    else
      var prev := SortFirst(ps, n - 1);
      var order := Insert(ps, prev, n - 1);
      assert forall k :: 0 <= k < |order| ==> order[k] < n by {
        forall k | 0 <= k < |order|
          ensures order[k] < n
        {
          assert order[k] in order;
          if order[k] != n - 1 {
            var b :| 0 <= b < |prev| && prev[b] == order[k];
          }
        }
      }
      order
  }

  /** `sorted(zip(...), key=arrival)`: Python's sort is stable, and the
      stable order is unique (ArrivalOrderUnique), so sorting by insertion
      yields the same order. */
  function ArrivalOrder(ps: seq<Process>): (order: seq<nat>)
    ensures IsArrivalOrder(ps, order)
  {
    SortFirst(ps, |ps|)
  }

  /** There is only one stable arrival order. */
  lemma ArrivalOrderUnique(ps: seq<Process>, o1: seq<nat>, o2: seq<nat>)
    requires IsArrivalOrder(ps, o1) && IsArrivalOrder(ps, o2)
    ensures o1 == o2
  {
    SortedWithSameMembersEqual(ps, o1, o2);
  }

  lemma {:induction false} SortedWithSameMembersEqual(ps: seq<Process>, s1: seq<nat>, s2: seq<nat>)
    requires StablySorted(ps, s1) && StablySorted(ps, s2)
    requires forall x :: x in s1 <==> x in s2
    ensures s1 == s2
    decreases |s1|
  {
    if s2 != [] {
      assert s2[0] in s2;
    }
    if s1 != [] {
      assert s1[0] in s2;
      assert s2[0] in s2;
      HeadComesFirst(ps, s2, s1[0]);
      HeadComesFirst(ps, s1, s2[0]);
      forall x
        ensures x in s1[1..] <==> x in s2[1..]
      {
        TailMembers(ps, s1, x);
        TailMembers(ps, s2, x);
      }
      StablySortedTail(ps, s1);
      StablySortedTail(ps, s2);
      SortedWithSameMembersEqual(ps, s1[1..], s2[1..]);
      assert s1 == [s1[0]] + s1[1..];
      assert s2 == [s2[0]] + s2[1..];
    }
  }

  /** Every member of a stably sorted list is its head or comes after it. */
  lemma HeadComesFirst(ps: seq<Process>, s: seq<nat>, x: nat)
    requires StablySorted(ps, s) && x in s
    ensures x == s[0] || ArrivesBefore(ps, s[0], x)
  {
    var b :| 0 <= b < |s| && s[b] == x;
    if b > 0 {
      assert ArrivesBefore(ps, s[0], s[b]);
    }
  }

  lemma StablySortedTail(ps: seq<Process>, s: seq<nat>)
    requires StablySorted(ps, s) && s != []
    ensures StablySorted(ps, s[1..])
  {
    forall a, b | 0 <= a < b < |s[1..]|
      ensures ArrivesBefore(ps, s[1..][a], s[1..][b])
    {
      assert s[1..][a] == s[a + 1] && s[1..][b] == s[b + 1];
    }
  }

  /** In a stably sorted list the head does not reappear in the tail. */
  lemma TailMembers(ps: seq<Process>, s: seq<nat>, x: nat)
    requires StablySorted(ps, s) && s != []
    ensures x in s[1..] <==> x in s && x != s[0]
  {
    if x in s[1..] {
      var b :| 0 <= b < |s[1..]| && s[1..][b] == x;
      assert ArrivesBefore(ps, s[0], s[b + 1]);
    }
    if x in s && x != s[0] {
      var b :| 0 <= b < |s| && s[b] == x;
      assert s[1..][b - 1] == x;
    }
  }

  /** The processes listed in the given order. */
  function Arrange(ps: seq<Process>, order: seq<nat>): (sps: seq<Process>)
    requires forall k :: 0 <= k < |order| ==> order[k] < |ps|
    ensures |sps| == |order|
    ensures forall k :: 0 <= k < |order| ==> sps[k] == ps[order[k]]
  {
    seq(|order|, k requires 0 <= k < |order| => ps[order[k]])
  }

  // ---------------------------------------------------------------------
  // The dispatch loop, on processes already in arrival order
  // ---------------------------------------------------------------------

  /** Position k has not been run by any of the first q timeline entries. */
  predicate Pending(tl: seq<Slice>, q: nat, k: nat)
    requires q <= |tl|
  {
    forall r :: 0 <= r < q ==> tl[r].proc != k
  }

  /** Some process still pending before the q-th dispatch has arrived by t. */
  predicate SomeArrived(sps: seq<Process>, tl: seq<Slice>, q: nat, t: int)
    requires q <= |tl|
  {
    exists m :: 0 <= m < |sps| && Pending(tl, q, m) && sps[m].arrival <= t
  }

  /** The shortest-job rule prefers k over m: a shorter burst, or an equal
      burst and an earlier position in arrival order. */
  predicate ShorterFirst(sps: seq<Process>, k: nat, m: nat)
    requires k < |sps| && m < |sps|
  {
    sps[k].burst < sps[m].burst || (sps[k].burst == sps[m].burst && k < m)
  }

  /** The q-th dispatch follows the SJF rules. It runs a pending process k
      to completion. If a pending process has arrived when the CPU becomes
      free, k starts right then; otherwise the clock jumps to the earliest
      pending arrival, which is k's. Among the pending processes that have
      arrived by k's start, k is the one the shortest-job rule prefers. */
  predicate SjfDispatch(sps: seq<Process>, tl: seq<Slice>, q: nat)
    requires q < |tl|
  {
    var s := tl[q];
    var k := s.proc;
    var t := FreeAt(tl, q);
    && k < |sps|
    && Pending(tl, q, k)
    && s.end == s.start + sps[k].burst
    && sps[k].arrival <= s.start
    && (if SomeArrived(sps, tl, q, t) then s.start == t
        else
          && s.start == sps[k].arrival
          && forall m :: 0 <= m < |sps| && Pending(tl, q, m) ==> s.start <= sps[m].arrival)
    && forall m :: 0 <= m < |sps| && m != k && Pending(tl, q, m) && sps[m].arrival <= s.start ==>
         ShorterFirst(sps, k, m)
  }

  /** The report of `sjf_scheduling` for processes in arrival order: the
      timeline lists the dispatches, each following the SJF rules, every
      process is run exactly once, and its table row (kept in arrival order)
      is computed from the end of its interval. */
  predicate IsSjfSchedule(sps: seq<Process>, r: Report)
  {
    && |r.timeline| == |sps|
    && |r.table| == |sps|
    && (forall q :: 0 <= q < |sps| ==>
          && SjfDispatch(sps, r.timeline, q)
          && r.table[r.timeline[q].proc] == MetricsOf(sps[r.timeline[q].proc], r.timeline[q].end))
    && (forall k :: 0 <= k < |sps| ==> !Pending(r.timeline, |sps|, k))
  }

  /** `min(available_processes, key=burst)`: the first available process
      (in arrival order) with the smallest burst, or -1 when none is
      available. */
  method PickShortest(sps: seq<Process>, completed: seq<bool>, t: int) returns (k: int)
    requires |completed| == |sps|
    ensures k == -1 <==> forall m :: 0 <= m < |sps| ==> completed[m] || sps[m].arrival > t
    ensures k != -1 ==>
              && 0 <= k < |sps| && !completed[k] && sps[k].arrival <= t
              && forall m :: 0 <= m < |sps| && m != k && !completed[m] && sps[m].arrival <= t ==>
                   ShorterFirst(sps, k, m)
  {
    k := -1;
    for i := 0 to |sps|
      invariant k == -1 ==> forall m :: 0 <= m < i ==> completed[m] || sps[m].arrival > t
      invariant k != -1 ==>
                  && 0 <= k < i && !completed[k] && sps[k].arrival <= t
                  && forall m :: 0 <= m < i && m != k && !completed[m] && sps[m].arrival <= t ==>
                       ShorterFirst(sps, k, m)
    {
      if !completed[i] && sps[i].arrival <= t && (k == -1 || sps[i].burst < sps[k].burst) {
        k := i;
      }
    }
  }

  /** `min(sorted_arrivals[i] ... if not completed[i])`: the earliest arrival
      among the processes not yet run. */
  method EarliestPending(sps: seq<Process>, completed: seq<bool>) returns (t: int)
    requires |completed| == |sps|
    requires exists m :: 0 <= m < |sps| && !completed[m]
    ensures exists m :: 0 <= m < |sps| && !completed[m] && sps[m].arrival == t
    ensures forall m :: 0 <= m < |sps| && !completed[m] ==> t <= sps[m].arrival
  {
    var found := false;
    t := 0;
    for i := 0 to |sps|
      invariant !found ==> forall m :: 0 <= m < i ==> completed[m]
      invariant found ==>
                  && (exists m :: 0 <= m < i && !completed[m] && sps[m].arrival == t)
                  && forall m :: 0 <= m < i && !completed[m] ==> t <= sps[m].arrival
    {
      if !completed[i] && (!found || sps[i].arrival < t) {
        t := sps[i].arrival;
        found := true;
      }
    }
  }

  /** Appending a dispatch leaves the earlier dispatches' conditions intact. */
  lemma DispatchKept(sps: seq<Process>, tl: seq<Slice>, s: Slice, q: nat)
    requires q < |tl| && SjfDispatch(sps, tl, q)
    ensures SjfDispatch(sps, tl + [s], q)
  {
    var ext := tl + [s];
    assert ext[q] == tl[q];
    assert FreeAt(ext, q) == FreeAt(tl, q);
    forall m
      ensures Pending(ext, q, m) <==> Pending(tl, q, m)
    {
      assert forall r :: 0 <= r < q ==> ext[r] == tl[r];
    }
  }

  lemma PendingPrefix(tl: seq<Slice>, s: Slice, m: nat)
    ensures Pending(tl + [s], |tl|, m) <==> Pending(tl, |tl|, m)
    ensures Pending(tl + [s], |tl| + 1, m) <==> Pending(tl, |tl|, m) && m != s.proc
  {
    var ext := tl + [s];
    assert forall r :: 0 <= r < |tl| ==> ext[r] == tl[r];
    assert ext[|tl|] == s;
  }

  /** The dispatch the loop makes is one the SJF rules allow. */
  lemma DispatchFollowsRules(sps: seq<Process>, tl: seq<Slice>, completed: seq<bool>, t: int, k: nat)
    requires |completed| == |sps|
    requires forall m :: 0 <= m < |sps| ==> (completed[m] <==> !Pending(tl, |tl|, m))
    requires || t == FreeAt(tl, |tl|)
             || (&& !SomeArrived(sps, tl, |tl|, FreeAt(tl, |tl|))
                 && forall m :: 0 <= m < |sps| && !completed[m] ==> t <= sps[m].arrival)
    requires k < |sps| && !completed[k] && sps[k].arrival <= t
    requires forall m :: 0 <= m < |sps| && m != k && !completed[m] && sps[m].arrival <= t ==>
               ShorterFirst(sps, k, m)
    ensures SjfDispatch(sps, tl + [Slice(k, t, t + sps[k].burst)], |tl|)
  {
    var s := Slice(k, t, t + sps[k].burst);
    var ext := tl + [s];
    forall m
      ensures Pending(ext, |tl|, m) <==> Pending(tl, |tl|, m)
    {
      PendingPrefix(tl, s, m);
    }
    assert FreeAt(ext, |tl|) == FreeAt(tl, |tl|);
    assert ext[|tl|] == s;
    if SomeArrived(sps, tl, |tl|, FreeAt(tl, |tl|)) {
      assert t == FreeAt(tl, |tl|);
    }
  }

  /** Every dispatch so far follows the SJF rules and has its table row. */
  predicate DispatchedSoFar(sps: seq<Process>, table: seq<Metrics>, tl: seq<Slice>)
    requires |table| == |sps|
  {
    forall q :: 0 <= q < |tl| ==>
      && SjfDispatch(sps, tl, q)
      && table[tl[q].proc] == MetricsOf(sps[tl[q].proc], tl[q].end)
  }

  lemma DispatchedExtend(sps: seq<Process>, table: seq<Metrics>, tl: seq<Slice>,
                         completed: seq<bool>, t: int, k: nat)
    requires |table| == |sps| && |completed| == |sps|
    requires DispatchedSoFar(sps, table, tl)
    requires forall m :: 0 <= m < |sps| ==> (completed[m] <==> !Pending(tl, |tl|, m))
    requires || t == FreeAt(tl, |tl|)
             || (&& !SomeArrived(sps, tl, |tl|, FreeAt(tl, |tl|))
                 && forall m :: 0 <= m < |sps| && !completed[m] ==> t <= sps[m].arrival)
    requires k < |sps| && !completed[k] && sps[k].arrival <= t
    requires forall m :: 0 <= m < |sps| && m != k && !completed[m] && sps[m].arrival <= t ==>
               ShorterFirst(sps, k, m)
    ensures var s := Slice(k, t, t + sps[k].burst);
            DispatchedSoFar(sps, table[k := MetricsOf(sps[k], s.end)], tl + [s])
  {
    var s := Slice(k, t, t + sps[k].burst);
    var table' := table[k := MetricsOf(sps[k], s.end)];
    var tl' := tl + [s];
    DispatchFollowsRules(sps, tl, completed, t, k);
    forall q | 0 <= q < |tl'|
      ensures && SjfDispatch(sps, tl', q)
              && table'[tl'[q].proc] == MetricsOf(sps[tl'[q].proc], tl'[q].end)
    {
      if q < |tl| {
        DispatchKept(sps, tl, s, q);
        assert tl'[q] == tl[q];
        assert tl[q].proc != k;
      }
    }
  }

  /** The `while remaining_processes > 0` loop of `sjf_scheduling`, on the
      arrival-sorted processes. */
  method RunSorted(sps: seq<Process>) returns (r: Report)
    ensures IsSjfSchedule(sps, r)
  {
    var n := |sps|;
    var table := seq(n, _ => Metrics(0, 0, 0));
    var timeline: seq<Slice> := [];
    var completed := seq(n, _ => false);
    var currentTime := 0;
    var remaining := n;
    CountPendingNone(completed);
    while remaining > 0
      invariant LoopState(sps, table, timeline, completed, currentTime, remaining)
      decreases remaining,
                if exists m :: 0 <= m < n && !completed[m] && sps[m].arrival <= currentTime then 0 else 1
    {
      var k := PickShortest(sps, completed, currentTime);
      if k != -1 {
        var s := Slice(k, currentTime, currentTime + sps[k].burst);
        DispatchStep(sps, table, timeline, completed, currentTime, remaining, k);
        table := table[k := MetricsOf(sps[k], s.end)];
        timeline := timeline + [s];
        completed := completed[k := true];
        currentTime := s.end;
        remaining := remaining - 1;
      } else {
        IdleStepPossible(sps, table, timeline, completed, currentTime, remaining);
        var t := EarliestPending(sps, completed);
        IdleStep(sps, table, timeline, completed, currentTime, remaining, t);
        currentTime := t;
      }
    }
    r := Report(table, timeline);
    LoopDone(sps, table, timeline, completed, currentTime);
  }

  /** The variables of the dispatch loop: `completed` marks exactly the
      processes already on the timeline, `remaining` counts the others,
      every dispatch so far follows the SJF rules, and the clock is either
      where the CPU became free or at an idle jump to the earliest pending
      arrival. */
  predicate LoopState(sps: seq<Process>, table: seq<Metrics>, tl: seq<Slice>,
                      completed: seq<bool>, t: int, remaining: int)
  {
    && |table| == |sps| && |completed| == |sps|
    && remaining == CountPending(completed)
    && |tl| + remaining == |sps|
    && (forall k :: 0 <= k < |sps| ==> (completed[k] <==> !Pending(tl, |tl|, k)))
    && DispatchedSoFar(sps, table, tl)
    && (|| t == FreeAt(tl, |tl|)
        || (&& !SomeArrived(sps, tl, |tl|, FreeAt(tl, |tl|))
            && (exists m :: 0 <= m < |sps| && !completed[m] && sps[m].arrival == t)
            && forall m :: 0 <= m < |sps| && !completed[m] ==> t <= sps[m].arrival))
  }

  lemma DispatchStep(sps: seq<Process>, table: seq<Metrics>, tl: seq<Slice>,
                     completed: seq<bool>, t: int, remaining: int, k: nat)
    requires LoopState(sps, table, tl, completed, t, remaining)
    requires k < |sps| && !completed[k] && sps[k].arrival <= t
    requires forall m :: 0 <= m < |sps| && m != k && !completed[m] && sps[m].arrival <= t ==>
               ShorterFirst(sps, k, m)
    ensures var s := Slice(k, t, t + sps[k].burst);
            LoopState(sps, table[k := MetricsOf(sps[k], s.end)], tl + [s], completed[k := true],
                      s.end, remaining - 1)
  {
    var s := Slice(k, t, t + sps[k].burst);
    var tl' := tl + [s];
    var done := completed[k := true];
    assert CountPending(done) == remaining - 1 by {
      CountPendingMark(completed, k);
    }
    assert forall m :: 0 <= m < |sps| ==> (done[m] <==> !Pending(tl', |tl'|, m)) by {
      forall m | 0 <= m < |sps|
        ensures done[m] <==> !Pending(tl', |tl'|, m)
      {
        PendingPrefix(tl, s, m);
      }
    }
    assert DispatchedSoFar(sps, table[k := MetricsOf(sps[k], s.end)], tl') by {
      DispatchedExtend(sps, table, tl, completed, t, k);
    }
    assert FreeAt(tl', |tl'|) == s.end;
  }

  /** When nothing has arrived, some process is still pending (so the
      earliest pending arrival exists). */
  lemma IdleStepPossible(sps: seq<Process>, table: seq<Metrics>, tl: seq<Slice>,
                         completed: seq<bool>, t: int, remaining: int)
    requires LoopState(sps, table, tl, completed, t, remaining) && remaining > 0
    ensures exists m :: 0 <= m < |sps| && !completed[m]
  {
  }

  /** The idle branch: nothing pending has arrived, so the clock moves
      strictly forward to the earliest pending arrival, after which some
      pending process has arrived. */
  lemma IdleStep(sps: seq<Process>, table: seq<Metrics>, tl: seq<Slice>,
                 completed: seq<bool>, t: int, remaining: int, t': int)
    requires LoopState(sps, table, tl, completed, t, remaining)
    requires forall m :: 0 <= m < |sps| ==> completed[m] || sps[m].arrival > t
    requires exists m :: 0 <= m < |sps| && !completed[m] && sps[m].arrival == t'
    requires forall m :: 0 <= m < |sps| && !completed[m] ==> t' <= sps[m].arrival
    ensures t < t'
    ensures LoopState(sps, table, tl, completed, t', remaining)
    ensures exists m :: 0 <= m < |sps| && !completed[m] && sps[m].arrival <= t'
  {
    if t == FreeAt(tl, |tl|) {
      assert !SomeArrived(sps, tl, |tl|, FreeAt(tl, |tl|)) by {
        forall m | 0 <= m < |sps| && Pending(tl, |tl|, m)
          ensures sps[m].arrival > FreeAt(tl, |tl|)
        {
          assert !completed[m];
        }
      }
    }
  }

  /** When no process is left, the loop's variables form an SJF schedule. */
  lemma LoopDone(sps: seq<Process>, table: seq<Metrics>, tl: seq<Slice>, completed: seq<bool>, t: int)
    requires LoopState(sps, table, tl, completed, t, 0)
    ensures IsSjfSchedule(sps, Report(table, tl))
  {
    forall k | 0 <= k < |sps|
      ensures !Pending(tl, |sps|, k)
    {
      assert completed[k];
    }
  }

  /** `sjf_scheduling`: sort stably by arrival, then run the dispatch loop.
      The table is reported in arrival order, as the page shows it. The
      program needs at least one process: unzipping the sorted list of an
      empty input raises an error. */
  method Schedule(ps: seq<Process>) returns (order: seq<nat>, r: Report)
    requires |ps| >= 1
    ensures IsArrivalOrder(ps, order)
    ensures IsSjfSchedule(Arrange(ps, order), r)
    ensures forall k :: 0 <= k < |ps| ==>
              r.table[k].waiting >= 0 && r.table[k].turnaround >= ps[order[k]].burst
  {
    order := ArrivalOrder(ps);
    var sps := Arrange(ps, order);
    r := RunSorted(sps);
    forall k | 0 <= k < |ps|
      ensures r.table[k].waiting >= 0 && r.table[k].turnaround >= ps[order[k]].burst
    {
      assert !Pending(r.timeline, |sps|, k);
      var q :| 0 <= q < |sps| && r.timeline[q].proc == k;
      assert SjfDispatch(sps, r.timeline, q);
      WaitingSign(ps[order[k]], r.table[k].completion);
    }
  }

  // ---------------------------------------------------------------------
  // Properties of every SJF schedule
  // ---------------------------------------------------------------------

  /** The CPU never runs backwards and idles exactly when it must: the q-th
      dispatch starts no earlier than the CPU is free, and strictly later
      only when no pending process has arrived by then. */
  lemma IdleOnlyWhenNothingArrived(sps: seq<Process>, r: Report, q: nat)
    requires IsSjfSchedule(sps, r) && q < |sps|
    ensures FreeAt(r.timeline, q) <= r.timeline[q].start
    ensures (FreeAt(r.timeline, q) < r.timeline[q].start)
              <==> !SomeArrived(sps, r.timeline, q, FreeAt(r.timeline, q))
  {
    assert SjfDispatch(sps, r.timeline, q);
  }

  /** Every process waits a non-negative time: it starts after arriving. */
  lemma StartsAfterArrival(sps: seq<Process>, r: Report, q: nat)
    requires IsSjfSchedule(sps, r) && q < |sps|
    ensures sps[r.timeline[q].proc].arrival <= r.timeline[q].start
    ensures r.table[r.timeline[q].proc].waiting == r.timeline[q].start - sps[r.timeline[q].proc].arrival
  {
    assert SjfDispatch(sps, r.timeline, q);
  }

  /** When positions are in arrival order, two processes with the same burst
      run in that order: the earlier one is never overtaken. */
  lemma {:induction false} EqualBurstsKeepArrivalOrder(sps: seq<Process>, r: Report,
                                                      a: nat, b: nat, qa: nat, qb: nat)
    requires IsSjfSchedule(sps, r)
    requires forall x, y :: 0 <= x < y < |sps| ==> sps[x].arrival <= sps[y].arrival
    requires a < b < |sps| && sps[a].burst == sps[b].burst
    requires qa < |sps| && qb < |sps| && r.timeline[qa].proc == a && r.timeline[qb].proc == b
    ensures qa < qb
  {
    var tl := r.timeline;
    assert SjfDispatch(sps, tl, qa);
    assert SjfDispatch(sps, tl, qb);
    assert sps[a].arrival <= tl[qb].start;
    assert !ShorterFirst(sps, b, a);
    assert !Pending(tl, qb, a);
    var x :| 0 <= x < qb && tl[x].proc == a;
    assert SjfDispatch(sps, tl, x);
  }

  /** Two processes with the same arrival and burst time run in input order,
      whatever the other processes are. */
  lemma SameJobsRunInInputOrder(ps: seq<Process>, order: seq<nat>, r: Report,
                                i: nat, j: nat, pi: nat, pj: nat, qi: nat, qj: nat)
    requires IsArrivalOrder(ps, order) && IsSjfSchedule(Arrange(ps, order), r)
    requires i < j < |ps| && ps[i] == ps[j]
    requires pi < |ps| && pj < |ps| && order[pi] == i && order[pj] == j
    requires qi < |ps| && qj < |ps| && r.timeline[qi].proc == pi && r.timeline[qj].proc == pj
    ensures qi < qj
  {
    var sps := Arrange(ps, order);
    assert pi != pj;
    assert !ArrivesBefore(ps, order[pj], order[pi]);
    assert pi < pj;
    forall x, y | 0 <= x < y < |sps|
      ensures sps[x].arrival <= sps[y].arrival
    {
      assert ArrivesBefore(ps, order[x], order[y]);
    }
    EqualBurstsKeepArrivalOrder(sps, r, pi, pj, qi, qj);
  }

  /** The SJF description leaves no freedom: two reports meeting it for the
      same processes are equal. */
  lemma ScheduleUnique(sps: seq<Process>, r1: Report, r2: Report)
    requires IsSjfSchedule(sps, r1) && IsSjfSchedule(sps, r2)
    ensures r1 == r2
  {
    var n := |sps|;
    TimelinePrefixUnique(sps, r1, r2, n);
    assert r1.timeline == r1.timeline[..n] && r2.timeline == r2.timeline[..n];
    forall k | 0 <= k < n
      ensures r1.table[k] == r2.table[k]
    {
      assert !Pending(r1.timeline, n, k);
      var q :| 0 <= q < n && r1.timeline[q].proc == k;
      DispatchAt(sps, r1, q);
      DispatchAt(sps, r2, q);
    }
  }

  /** Two schedules agree on every prefix of their timelines. */
  lemma {:induction false} TimelinePrefixUnique(sps: seq<Process>, r1: Report, r2: Report, q: nat)
    requires IsSjfSchedule(sps, r1) && IsSjfSchedule(sps, r2) && q <= |sps|
    ensures r1.timeline[..q] == r2.timeline[..q]
  {
    if q > 0 {
      TimelinePrefixUnique(sps, r1, r2, q - 1);
      DispatchAt(sps, r1, q - 1);
      DispatchAt(sps, r2, q - 1);
      PrefixStep(sps, r1.timeline, r2.timeline, q - 1);
    }
  }

  /** Equal prefixes of length q and equal dispatches at q make equal
      prefixes of length q + 1. */
  lemma PrefixStep(sps: seq<Process>, tl1: seq<Slice>, tl2: seq<Slice>, q: nat)
    requires q < |tl1| && q < |tl2| && tl1[..q] == tl2[..q]
    requires SjfDispatch(sps, tl1, q) && SjfDispatch(sps, tl2, q)
    ensures tl1[..q + 1] == tl2[..q + 1]
  {
    DispatchUnique(sps, tl1, tl2, q);
    assert tl1[..q + 1] == tl1[..q] + [tl1[q]];
    assert tl2[..q + 1] == tl2[..q] + [tl2[q]];
  }

  /** After the same q dispatches, the SJF rules fix the next one: the start
      time, the process and hence the end. */
  lemma DispatchUnique(sps: seq<Process>, tl1: seq<Slice>, tl2: seq<Slice>, q: nat)
    requires q < |tl1| && q < |tl2| && tl1[..q] == tl2[..q]
    requires SjfDispatch(sps, tl1, q) && SjfDispatch(sps, tl2, q)
    ensures tl1[q] == tl2[q]
  {
    forall m ensures Pending(tl1, q, m) <==> Pending(tl2, q, m) {
      forall x | 0 <= x < q ensures tl1[x] == tl2[x] {
        assert tl1[..q][x] == tl2[..q][x];
      }
    }
    var t := FreeAt(tl1, q);
    assert t == FreeAt(tl2, q) by {
      if q > 0 {
        assert tl1[..q][q - 1] == tl2[..q][q - 1];
      }
    }
    var s1, s2 := tl1[q], tl2[q];
    var k1, k2 := s1.proc, s2.proc;
    if SomeArrived(sps, tl1, q, t) {
      var m :| 0 <= m < |sps| && Pending(tl1, q, m) && sps[m].arrival <= t;
      assert SomeArrived(sps, tl2, q, t);
    } else {
      forall m | 0 <= m < |sps| && Pending(tl2, q, m)
        ensures sps[m].arrival > t
      {
        assert Pending(tl1, q, m);
      }
      assert s1.start <= sps[k2].arrival == s2.start;
      assert s2.start <= sps[k1].arrival == s1.start;
    }
    assert s1.start == s2.start;
    assert k1 == k2 || ShorterFirst(sps, k1, k2);
    assert k1 == k2 || ShorterFirst(sps, k2, k1);
  }

  /** One dispatch of a schedule, taken out of the schedule predicate. */
  lemma DispatchAt(sps: seq<Process>, r: Report, q: nat)
    requires IsSjfSchedule(sps, r) && q < |sps|
    ensures SjfDispatch(sps, r.timeline, q)
    ensures r.table[r.timeline[q].proc] == MetricsOf(sps[r.timeline[q].proc], r.timeline[q].end)
  {
  }

  /** P1(AT 0, BT 6), P2(AT 1, BT 2): P2 is shorter but arrives after P1 has
      started, so it waits for P1 to finish. */
  lemma TwoProcessExample(sps: seq<Process>, r: Report)
    requires sps == [Process(6, 0), Process(2, 1)]
    requires IsSjfSchedule(sps, r)
    ensures r.timeline == [Slice(0, 0, 6), Slice(1, 6, 8)]
    ensures r.table == [Metrics(6, 6, 0), Metrics(8, 7, 5)]
  {
    TwoProcessFirst(sps, r);
    TwoProcessSecond(sps, r);
    assert r.timeline == [r.timeline[0], r.timeline[1]];
    DispatchAt(sps, r, 0);
    DispatchAt(sps, r, 1);
    assert r.table == [r.table[0], r.table[1]];
  }

  lemma TwoProcessFirst(sps: seq<Process>, r: Report)
    requires sps == [Process(6, 0), Process(2, 1)]
    requires IsSjfSchedule(sps, r)
    ensures r.timeline[0] == Slice(0, 0, 6)
  {
    var tl := r.timeline;
    DispatchAt(sps, r, 0);
    assert Pending(tl, 0, 0);
    assert SomeArrived(sps, tl, 0, 0);
    assert tl[0].proc == 0 by {
      assert sps[tl[0].proc].arrival <= 0;
    }
  }

  lemma TwoProcessSecond(sps: seq<Process>, r: Report)
    requires sps == [Process(6, 0), Process(2, 1)]
    requires IsSjfSchedule(sps, r)
    requires r.timeline[0] == Slice(0, 0, 6)
    ensures r.timeline[1] == Slice(1, 6, 8)
  {
    var tl := r.timeline;
    assert Pending(tl, 1, 1);
    assert SomeArrived(sps, tl, 1, 6);
    DispatchAt(sps, r, 1);
    assert tl[1].proc == 1 by {
      assert Pending(tl, 1, tl[1].proc);
    }
  }
}
