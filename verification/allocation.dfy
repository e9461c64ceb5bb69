/** Contiguous memory placement as the memory page simulates it: requests are
    served in input order against a working copy of the block sizes, each one
    placed in a single block chosen by first-fit, best-fit or worst-fit, or
    left unallocated. */
module Allocation {

  /** Entry of the allocation list for a request that fits in no block
      (shown as "Not Allocated"). */
  const Unallocated: int := -1

  datatype Policy = FirstFit | BestFit | WorstFit

  /** The smallest leftover seen so far by the best-fit scan; it starts out
      as positive infinity. */
  datatype Bound = Finite(value: int) | Infinity

  predicate Below(x: int, b: Bound)
  {
    match b
    case Finite(v) => x < v
    case Infinity => true
  }

  /** Block j exists and its current free capacity can hold `size`. */
  predicate Fits(free: seq<int>, size: int, j: int)
  {
    0 <= j < |free| && free[j] >= size
  }

  /** For two blocks that both fit, picking j is at least as good as picking
      k under the policy: first-fit prefers the lower index, best-fit the
      smaller leftover, worst-fit the larger free capacity, and equal
      candidates always go to the lower index. */
  predicate PreferredOver(policy: Policy, free: seq<int>, size: int, j: nat, k: nat)
    requires j < |free| && k < |free|
  {
    match policy
    case FirstFit => j <= k
    case BestFit =>
      free[j] - size < free[k] - size || (free[j] - size == free[k] - size && j <= k)
    case WorstFit =>
      free[j] > free[k] || (free[j] == free[k] && j <= k)
  }

  /** j is the block the policy picks for `size` given the free capacities,
      or Unallocated exactly when no block has room. */
  predicate IsChoice(policy: Policy, free: seq<int>, size: int, j: int)
  {
    if j == Unallocated then
      forall k :: 0 <= k < |free| ==> free[k] < size
    else
      && Fits(free, size, j)
      && forall k :: 0 <= k < |free| && free[k] >= size ==> PreferredOver(policy, free, size, j, k)
  }

  /** A choice is determined by the policy: there is never a second one. */
  lemma ChoiceUnique(policy: Policy, free: seq<int>, size: int, j1: int, j2: int)
    requires IsChoice(policy, free, size, j1) && IsChoice(policy, free, size, j2)
    ensures j1 == j2
  {
    if j1 != Unallocated && j2 != Unallocated {
      assert PreferredOver(policy, free, size, j1, j2);
      assert PreferredOver(policy, free, size, j2, j1);
    }
  }

  /** Free capacities after serving the requests that `alloc` has decided so
      far: each placed request takes its size out of its block; an
      unallocated one changes nothing. */
  function Residual(blocks: seq<int>, requests: seq<int>, alloc: seq<int>): (free: seq<int>)
    requires |alloc| <= |requests|
    ensures |free| == |blocks|
    ensures alloc == [] ==> free == blocks
    decreases |alloc|
  {
    if alloc == [] then blocks
    else
      var i := |alloc| - 1;
      Serve(Residual(blocks, requests, alloc[..i]), alloc[i], requests[i])
  }

  /** Placing `size` in block j takes it out of j's free capacity; an
      unallocated request (or any j that is not a block) changes nothing. */
  function Serve(free: seq<int>, j: int, size: int): (after: seq<int>)
    ensures |after| == |free|
    ensures forall k :: 0 <= k < |free| && k != j ==> after[k] == free[k]
    ensures 0 <= j < |free| ==> after[j] == free[j] - size
    ensures Fits(free, size, j) ==> after[j] >= 0
  {
    if 0 <= j < |free| then free[j := free[j] - size] else free
  }

  /** Every decision in `alloc` is the policy's choice for its request,
      taken in input order, against the capacities left by the requests
      before it. */
  predicate Placed(policy: Policy, blocks: seq<int>, requests: seq<int>, alloc: seq<int>)
    requires |alloc| <= |requests|
  {
    forall i :: 0 <= i < |alloc| ==>
      IsChoice(policy, Residual(blocks, requests, alloc[..i]), requests[i], alloc[i])
  }

  /** `alloc` is the complete allocation list the policy produces. */
  predicate IsPlacement(policy: Policy, blocks: seq<int>, requests: seq<int>, alloc: seq<int>)
  {
    |alloc| == |requests| && Placed(policy, blocks, requests, alloc)
  }

  /** The inner loop of `first_fit`: the first block with room. */
  method FirstFitScan(free: seq<int>, size: int) returns (j: int)
    ensures IsChoice(FirstFit, free, size, j)
  {
    j := 0;
    while j < |free| && free[j] < size
      invariant 0 <= j <= |free|
      invariant forall k :: 0 <= k < j ==> free[k] < size
    {
      j := j + 1;
    }
    if j == |free| {
      j := Unallocated;
    }
  }

  /** The inner loop of `best_fit`: a candidate replaces the current best
      only on a strictly smaller leftover. */
  method BestFitScan(free: seq<int>, size: int) returns (bestIdx: int)
    ensures IsChoice(BestFit, free, size, bestIdx)
  {
    bestIdx := Unallocated;
    var minSpace := Infinity;
    for j := 0 to |free|
      invariant bestIdx == Unallocated ==>
                  minSpace == Infinity && forall k :: 0 <= k < j ==> free[k] < size
      invariant bestIdx != Unallocated ==>
                  && 0 <= bestIdx < j
                  && free[bestIdx] >= size
                  && minSpace == Finite(free[bestIdx] - size)
                  && forall k :: 0 <= k < j && free[k] >= size ==>
                       PreferredOver(BestFit, free, size, bestIdx, k)
    {
      if free[j] >= size && Below(free[j] - size, minSpace) {
        bestIdx := j;
        minSpace := Finite(free[j] - size);
      }
    }
  }

  /** The inner loop of `worst_fit`: the running maximum starts at -1 and a
      candidate replaces it only on a strictly larger free capacity. */
  method WorstFitScan(free: seq<int>, size: int) returns (worstIdx: int)
    requires size >= 0
    ensures IsChoice(WorstFit, free, size, worstIdx)
  {
    worstIdx := Unallocated;
    var maxSpace := -1;
    for j := 0 to |free|
      invariant worstIdx == Unallocated ==>
                  maxSpace == -1 && forall k :: 0 <= k < j ==> free[k] < size
      invariant worstIdx != Unallocated ==>
                  && 0 <= worstIdx < j
                  && free[worstIdx] >= size
                  && maxSpace == free[worstIdx]
                  && forall k :: 0 <= k < j && free[k] >= size ==>
                       PreferredOver(WorstFit, free, size, worstIdx, k)
    {
      if free[j] >= size && free[j] > maxSpace {
        worstIdx := j;
        maxSpace := free[j];
      }
    }
  }

  lemma PlacedSnoc(policy: Policy, blocks: seq<int>, requests: seq<int>, alloc: seq<int>, j: int)
    requires |alloc| < |requests|
    requires Placed(policy, blocks, requests, alloc)
    requires IsChoice(policy, Residual(blocks, requests, alloc), requests[|alloc|], j)
    ensures Placed(policy, blocks, requests, alloc + [j])
  {
    var ext := alloc + [j];
    forall i | 0 <= i < |ext|
      ensures IsChoice(policy, Residual(blocks, requests, ext[..i]), requests[i], ext[i])
    {
      assert ext[..i] == alloc[..i];
      if i < |alloc| {
        assert ext[i] == alloc[i];
      }
    }
  }

  lemma PlacedPrefix(policy: Policy, blocks: seq<int>, requests: seq<int>, alloc: seq<int>, n: nat)
    requires |alloc| <= |requests| && n <= |alloc|
    requires Placed(policy, blocks, requests, alloc)
    ensures Placed(policy, blocks, requests, alloc[..n])
  {
    var pre := alloc[..n];
    forall i | 0 <= i < n
      ensures IsChoice(policy, Residual(blocks, requests, pre[..i]), requests[i], pre[i])
    {
      assert pre[..i] == alloc[..i];
    }
  }

  /** The loop shared by `first_fit`, `best_fit` and `worst_fit`, with the
      page's strategy switch deciding which scan picks the block; request i's
      entry is the scan's result, so it stays -1 when nothing fits. Sizes are
      non-negative whole numbers, which is all the page's list parsing can
      produce; worst-fit relies on it because its running maximum starts
      at -1. */
  method Allocate(policy: Policy, blocks: seq<int>, requests: seq<int>) returns (allocation: seq<int>)
    requires policy == WorstFit ==> forall i :: 0 <= i < |requests| ==> requests[i] >= 0
    ensures IsPlacement(policy, blocks, requests, allocation)
    ensures forall i :: 0 <= i < |allocation| ==> -1 <= allocation[i] < |blocks|
  {
    allocation := [];
    var free := blocks;
    for i := 0 to |requests|
      invariant |allocation| == i
      invariant Progress(policy, blocks, requests, allocation, free)
    {
      var j := Choose(policy, free, requests[i]);
      ProgressExtend(policy, blocks, requests, allocation, free, j);
      free := Serve(free, j, requests[i]);  // the chosen block loses the request's size
      allocation := allocation + [j];
    }
  }

  /** The strategy switch of the memory page: run the chosen policy's scan. */
  method Choose(policy: Policy, free: seq<int>, size: int) returns (j: int)
    requires policy == WorstFit ==> size >= 0
    ensures IsChoice(policy, free, size, j)
  {
    match policy {
      case FirstFit => j := FirstFitScan(free, size);
      case BestFit => j := BestFitScan(free, size);
      case WorstFit => j := WorstFitScan(free, size);
    }
  }

  /** The state of the allocation loop after deciding the requests of
      `alloc`: `free` holds the capacities left, and every decision so far
      is a block index or Unallocated chosen by the policy. */
  predicate Progress(policy: Policy, blocks: seq<int>, requests: seq<int>, alloc: seq<int>, free: seq<int>)
  {
    && |alloc| <= |requests|
    && free == Residual(blocks, requests, alloc)
    && Placed(policy, blocks, requests, alloc)
    && forall k :: 0 <= k < |alloc| ==> -1 <= alloc[k] < |blocks|
  }

  lemma ProgressExtend(policy: Policy, blocks: seq<int>, requests: seq<int>, alloc: seq<int>,
                       free: seq<int>, j: int)
    requires Progress(policy, blocks, requests, alloc, free) && |alloc| < |requests|
    requires IsChoice(policy, free, requests[|alloc|], j)
    ensures Progress(policy, blocks, requests, alloc + [j], Serve(free, j, requests[|alloc|]))
  {
    PlacedSnoc(policy, blocks, requests, alloc, j);
    ResidualSnoc(blocks, requests, alloc, j);
  }

  /** Deciding one more request updates the capacities the way the loop
      body does. */
  lemma ResidualSnoc(blocks: seq<int>, requests: seq<int>, alloc: seq<int>, j: int)
    requires |alloc| < |requests|
    ensures Residual(blocks, requests, alloc + [j])
            == Serve(Residual(blocks, requests, alloc), j, requests[|alloc|])
  {
    assert (alloc + [j])[..|alloc|] == alloc;
  }

  /** The placement contract determines the allocation list completely. */
  lemma {:induction false} PlacementUnique(policy: Policy, blocks: seq<int>, requests: seq<int>,
                                           a1: seq<int>, a2: seq<int>)
    requires |a1| == |a2| <= |requests|
    requires Placed(policy, blocks, requests, a1) && Placed(policy, blocks, requests, a2)
    ensures a1 == a2
    decreases |a1|
  {
    if a1 != [] {
      var i := |a1| - 1;
      PlacedPrefix(policy, blocks, requests, a1, i);
      PlacedPrefix(policy, blocks, requests, a2, i);
      PlacementUnique(policy, blocks, requests, a1[..i], a2[..i]);
      var free := Residual(blocks, requests, a1[..i]);
      assert IsChoice(policy, free, requests[i], a1[i]);
      assert IsChoice(policy, Residual(blocks, requests, a2[..i]), requests[i], a2[i]);
      ChoiceUnique(policy, free, requests[i], a1[i], a2[i]);
      SameLastSameSeq(a1, a2);
    }
  }

  lemma SameLastSameSeq(a1: seq<int>, a2: seq<int>)
    requires |a1| == |a2| > 0
    requires a1[..|a1| - 1] == a2[..|a2| - 1] && a1[|a1| - 1] == a2[|a2| - 1]
    ensures a1 == a2
  {
    assert a1 == a1[..|a1| - 1] + [a1[|a1| - 1]];
    assert a2 == a2[..|a2| - 1] + [a2[|a2| - 1]];
  }

  /** Total size of the requests in `alloc`'s prefix that were placed in block j. */
  function Assigned(requests: seq<int>, alloc: seq<int>, j: int): (total: int)
    requires |alloc| <= |requests|
    decreases |alloc|
  {
    if alloc == [] then 0
    else
      var i := |alloc| - 1;
      Assigned(requests, alloc[..i], j) + (if alloc[i] == j then requests[i] else 0)
  }

  /** What is left of a block is its original size minus everything placed in it. */
  lemma {:induction false} ResidualIsSizeMinusAssigned(blocks: seq<int>, requests: seq<int>,
                                                       alloc: seq<int>, j: nat)
    requires |alloc| <= |requests| && j < |blocks|
    ensures Residual(blocks, requests, alloc)[j] == blocks[j] - Assigned(requests, alloc, j)
    decreases |alloc|
  {
    if alloc != [] {
      ResidualIsSizeMinusAssigned(blocks, requests, alloc[..|alloc| - 1], j);
    }
  }

  /** Serving a request never drives a free capacity below zero. */
  lemma {:induction false} ResidualNonNegative(policy: Policy, blocks: seq<int>, requests: seq<int>,
                                               alloc: seq<int>, n: nat)
    requires IsPlacement(policy, blocks, requests, alloc)
    requires forall j :: 0 <= j < |blocks| ==> blocks[j] >= 0
    requires n <= |alloc|
    ensures forall j :: 0 <= j < |blocks| ==> Residual(blocks, requests, alloc[..n])[j] >= 0
  {
    if n > 0 {
      var i := n - 1;
      ResidualNonNegative(policy, blocks, requests, alloc, i);
      assert alloc[..n][..i] == alloc[..i];
      assert IsChoice(policy, Residual(blocks, requests, alloc[..i]), requests[i], alloc[i]);
    }
  }

  /** No block is ever given more than its original size in total. */
  lemma CapacityRespected(policy: Policy, blocks: seq<int>, requests: seq<int>, alloc: seq<int>)
    requires IsPlacement(policy, blocks, requests, alloc)
    requires forall j :: 0 <= j < |blocks| ==> blocks[j] >= 0
    ensures forall j :: 0 <= j < |blocks| ==> 0 <= blocks[j] - Assigned(requests, alloc, j)
  {
    ResidualNonNegative(policy, blocks, requests, alloc, |alloc|);
    assert alloc[..|alloc|] == alloc;
    forall j | 0 <= j < |blocks|
      ensures 0 <= blocks[j] - Assigned(requests, alloc, j)
    {
      ResidualIsSizeMinusAssigned(blocks, requests, alloc, j);
    }
  }

  /** Blocks [100, 500, 200], requests [120, 50]: first-fit puts 120 in the
      500 block and 50 in the 100 block. */
  lemma FirstFitExample(alloc: seq<int>)
    requires IsPlacement(FirstFit, [100, 500, 200], [120, 50], alloc)
    ensures alloc == [1, 0]
  {
    var blocks := [100, 500, 200];
    var requests := [120, 50];
    assert IsChoice(FirstFit, blocks, 120, alloc[0]) by {
      assert alloc[..0] == [];
    }
    assert blocks[1] >= 120;
    assert alloc[0] == 1;
    assert alloc[..1] == [1];
    var free := Residual(blocks, requests, [1]);
    assert free == [100, 380, 200];
    assert IsChoice(FirstFit, free, 50, alloc[1]);
    assert Fits(free, 50, 0);
  }

  /** Blocks [100, 150, 200], one request of 120: best-fit picks the 150
      block (leftover 30), worst-fit the 200 block (leftover 80). */
  lemma BestAndWorstDiverge(best: seq<int>, worst: seq<int>)
    requires IsPlacement(BestFit, [100, 150, 200], [120], best)
    requires IsPlacement(WorstFit, [100, 150, 200], [120], worst)
    ensures best == [1] && worst == [2]
  {
    var blocks := [100, 150, 200];
    assert best[..0] == [] && worst[..0] == [];
    assert IsChoice(BestFit, blocks, 120, best[0]);
    assert IsChoice(WorstFit, blocks, 120, worst[0]);
    assert Fits(blocks, 120, 1) && Fits(blocks, 120, 2);
  }
}
