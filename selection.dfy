/** What the offline greedy loops select. Pruning the head of the ranking
    until it is eligible, then stepping on it, amounts to stepping on the
    first eligible item of the ranking; these functions name that item's
    position, and the log predicates say that every step of a run was such
    a pick. */
module Selection {
  import opened Outcomes
  import opened Ranking
  import opened Environment

  /** Position in `rank` of the first item whose weight fits `capacity` (unbounded variant). */
  function FirstFit(rank: seq<nat>, weights: seq<int>, capacity: int): (r: Option<nat>)
    requires InCatalog(|weights|, rank)
    ensures r.Some? ==> r.value < |rank| && weights[rank[r.value]] <= capacity
    ensures forall j :: 0 <= j < |rank| && (r.None? || j < r.value) ==> weights[rank[j]] > capacity
  {
    if rank == [] then None
    else if weights[rank[0]] <= capacity then Some(0)
    else
      match FirstFit(rank[1..], weights, capacity)
      case None => None
      case Some(j) => Some(j + 1)
  }

  /** Position in `rank` of the first item that is still available and fits
      `capacity` (bounded variant). */
  function FirstAvailable(rank: seq<nat>, weights: seq<int>, limits: seq<int>, capacity: int): (r: Option<nat>)
    requires InCatalog(|weights|, rank) && |limits| == |weights|
    ensures r.Some? ==> r.value < |rank| && limits[rank[r.value]] != 0 && weights[rank[r.value]] <= capacity
    ensures forall j :: 0 <= j < |rank| && (r.None? || j < r.value) ==>
              limits[rank[j]] == 0 || weights[rank[j]] > capacity
  {
    if rank == [] then None
    else if limits[rank[0]] != 0 && weights[rank[0]] <= capacity then Some(0)
    else
      match FirstAvailable(rank[1..], weights, limits, capacity)
      case None => None
      case Some(j) => Some(j + 1)
  }

  /** The first fitting position is `p` exactly when the item there fits and none before it does. */
  lemma FirstFitIs(rank: seq<nat>, weights: seq<int>, capacity: int, p: nat)
    requires InCatalog(|weights|, rank) && p <= |rank|
    requires forall j :: 0 <= j < p ==> weights[rank[j]] > capacity
    ensures p < |rank| && weights[rank[p]] <= capacity ==> FirstFit(rank, weights, capacity) == Some(p)
    ensures p == |rank| ==> FirstFit(rank, weights, capacity) == None
  {
  }

  /** The first available position is `p` exactly when the item there is available
      and fits, and no item before it is. */
  lemma FirstAvailableIs(rank: seq<nat>, weights: seq<int>, limits: seq<int>, capacity: int, p: nat)
    requires InCatalog(|weights|, rank) && |limits| == |weights| && p <= |rank|
    requires forall j :: 0 <= j < p ==> limits[rank[j]] == 0 || weights[rank[j]] > capacity
    ensures p < |rank| && limits[rank[p]] != 0 && weights[rank[p]] <= capacity ==>
              FirstAvailable(rank, weights, limits, capacity) == Some(p)
    ensures p == |rank| ==> FirstAvailable(rank, weights, limits, capacity) == None
  {
  }

  /** Step `s` stepped the first item of `rank` that fit the residual capacity. */
  ghost predicate FitPick(rank: seq<nat>, weights: seq<int>, s: OfflineStep)
    requires InCatalog(|weights|, rank)
  {
    var j := FirstFit(rank, weights, s.residual);
    j.Some? && rank[j.value] == s.item
  }

  /** Step `s` stepped the first item of `rank` that was available and fit. */
  ghost predicate AvailablePick(rank: seq<nat>, weights: seq<int>, s: OfflineStep)
    requires InCatalog(|weights|, rank)
  {
    |s.limits| == |weights| &&
    var j := FirstAvailable(rank, weights, s.limits, s.residual);
    j.Some? && rank[j.value] == s.item
  }

  /** Step k of `log` started from the residual capacity that the k earlier
      steps left in a knapsack of capacity `maxWeight`, and stepped the first
      item of `rank` that fit it. */
  ghost predicate UnboundedStepAt(rank: seq<nat>, weights: seq<int>, maxWeight: int, log: seq<OfflineStep>, k: nat)
    requires InCatalog(|weights|, rank) && InCatalog(|weights|, Stepped(log)) && k < |log|
  {
    log[k].residual == maxWeight - TotalWeight(weights, Stepped(log)[..k]) && FitPick(rank, weights, log[k])
  }

  /** The log of an unbounded greedy run from an empty knapsack: every step
      took the first item of the ranking that fit what the earlier steps left. */
  ghost predicate UnboundedGreedyLog(rank: seq<nat>, weights: seq<int>, maxWeight: int, log: seq<OfflineStep>)
    requires InCatalog(|weights|, rank)
  {
    && InCatalog(|weights|, Stepped(log))
    && forall k :: 0 <= k < |log| ==> UnboundedStepAt(rank, weights, maxWeight, log, k)
  }

  /** Step k of `log` started from the residual capacity and the limits that
      the k earlier steps left (one unit of an item used up per step on it),
      and stepped the first item of `rank` that was available and fit. */
  ghost predicate BoundedStepAt(rank: seq<nat>, weights: seq<int>, initialLimits: seq<int>, maxWeight: int,
                                log: seq<OfflineStep>, k: nat)
    requires InCatalog(|weights|, rank) && |initialLimits| == |weights|
    requires InCatalog(|weights|, Stepped(log)) && k < |log|
  {
    && log[k].residual == maxWeight - TotalWeight(weights, Stepped(log)[..k])
    && log[k].limits == LimitsAfter(initialLimits, Stepped(log)[..k])
    && AvailablePick(rank, weights, log[k])
  }

  /** The log of a bounded greedy run from an empty knapsack and the initial limits. */
  ghost predicate BoundedGreedyLog(rank: seq<nat>, weights: seq<int>, initialLimits: seq<int>,
                                   maxWeight: int, log: seq<OfflineStep>)
    requires InCatalog(|weights|, rank) && |initialLimits| == |weights|
  {
    && InCatalog(|weights|, Stepped(log))
    && forall k :: 0 <= k < |log| ==> BoundedStepAt(rank, weights, initialLimits, maxWeight, log, k)
  }

  /** After a run, each item's limit is its initial limit less the number of times it was stepped. */
  lemma {:induction false} LimitsCountSteps(initial: seq<int>, items: seq<nat>, i: nat)
    requires InCatalog(|initial|, items) && i < |initial|
    ensures LimitsAfter(initial, items)[i] == initial[i] - multiset(items)[i]
  {
    if items != [] {
      var front := items[..|items| - 1];
      LimitsCountSteps(initial, front, i);
      assert items == front + [items[|items| - 1]];
    }
  }

  /** Less capacity never moves the first fitting position back, and an item
      before the first fitting position at a larger capacity does not fit a
      smaller one. */
  lemma FitPositionAdvances(rank: seq<nat>, weights: seq<int>, larger: int, smaller: int)
    requires InCatalog(|weights|, rank) && smaller <= larger
    requires FirstFit(rank, weights, larger).Some? && FirstFit(rank, weights, smaller).Some?
    ensures FirstFit(rank, weights, larger).value <= FirstFit(rank, weights, smaller).value
    ensures forall j :: 0 <= j < FirstFit(rank, weights, larger).value ==> weights[rank[j]] > smaller
    ensures weights[rank[FirstFit(rank, weights, larger).value]] <= smaller ==>
              FirstFit(rank, weights, smaller) == FirstFit(rank, weights, larger)
  {
  }

  /** In an unbounded run the residual capacity before step l is the one
      before step k less the weight of the steps in between. */
  lemma UnboundedResiduals(rank: seq<nat>, weights: seq<int>, maxWeight: int, log: seq<OfflineStep>, k: nat, l: nat)
    requires forall i :: 0 <= i < |weights| ==> weights[i] > 0
    requires InCatalog(|weights|, rank) && UnboundedGreedyLog(rank, weights, maxWeight, log)
    requires k <= l < |log|
    ensures log[l].residual <= log[k].residual
    ensures l == k + 1 ==> log[l].residual == log[k].residual - weights[Stepped(log)[k]]
  {
    var s := Stepped(log);
    assert UnboundedStepAt(rank, weights, maxWeight, log, k) && UnboundedStepAt(rank, weights, maxWeight, log, l);
    PrefixWeightGrows(weights, s, k, l);
    if l == k + 1 {
      assert s[..l][..k] == s[..k];
    }
  }

  /** The pruning only ever moves forward through the ranking: the position
      picked at a later step is never before the one picked at an earlier
      step, and an item passed over before step k is never stepped at step k
      or after. The same best item stays on offer while it fits: if the item of
      step k still fits after it was added, step k + 1 takes it again. */
  lemma UnboundedRunShape(rank: seq<nat>, weights: seq<int>, maxWeight: int, log: seq<OfflineStep>, k: nat, l: nat)
    requires forall i :: 0 <= i < |weights| ==> weights[i] > 0
    requires InCatalog(|weights|, rank) && UnboundedGreedyLog(rank, weights, maxWeight, log)
    requires k <= l < |log|
    ensures FitPick(rank, weights, log[k]) && FitPick(rank, weights, log[l])
    ensures FirstFit(rank, weights, log[k].residual).value <= FirstFit(rank, weights, log[l].residual).value
    ensures forall j :: 0 <= j < FirstFit(rank, weights, log[k].residual).value ==> rank[j] != log[l].item
    ensures l == k + 1 && weights[log[k].item] <= log[l].residual ==> log[l].item == log[k].item
  {
    assert UnboundedStepAt(rank, weights, maxWeight, log, k) && UnboundedStepAt(rank, weights, maxWeight, log, l);
    UnboundedResiduals(rank, weights, maxWeight, log, k, l);
    FitPositionAdvances(rank, weights, log[k].residual, log[l].residual);
  }

  /** One step of a bounded run: the limits after it are the limits before it
      with one unit of the stepped item used up, and that item's limit was not zero. */
  lemma BoundedStepLimits(rank: seq<nat>, weights: seq<int>, initialLimits: seq<int>,
                          maxWeight: int, log: seq<OfflineStep>, k: nat)
    requires InCatalog(|weights|, rank) && |initialLimits| == |weights|
    requires BoundedGreedyLog(rank, weights, initialLimits, maxWeight, log)
    requires k < |log|
    ensures AvailablePick(rank, weights, log[k])
    ensures log[k].item < |weights| && log[k].limits[log[k].item] != 0
    ensures LimitsAfter(initialLimits, Stepped(log)[..k + 1])
         == log[k].limits[log[k].item := log[k].limits[log[k].item] - 1]
  {
    var s := Stepped(log);
    assert BoundedStepAt(rank, weights, initialLimits, maxWeight, log, k);
    assert s[..k + 1] == s[..k] + [s[k]];
    LimitsAfterAppend(initialLimits, s[..k], s[k]);
  }

  /** In a bounded run no limit goes below zero, so no item is stepped more
      often than its initial limit allows. */
  lemma {:induction false} BoundedLimitsHold(rank: seq<nat>, weights: seq<int>, initialLimits: seq<int>,
                                             maxWeight: int, log: seq<OfflineStep>, n: nat)
    requires InCatalog(|weights|, rank) && |initialLimits| == |weights|
    requires forall i :: 0 <= i < |initialLimits| ==> initialLimits[i] >= 0
    requires BoundedGreedyLog(rank, weights, initialLimits, maxWeight, log)
    requires n <= |log|
    ensures forall i :: 0 <= i < |weights| ==> LimitsAfter(initialLimits, Stepped(log)[..n])[i] >= 0
    ensures forall i :: 0 <= i < |weights| ==> multiset(Stepped(log)[..n])[i] <= initialLimits[i]
  {
    var s := Stepped(log);
    if n > 0 {
      BoundedLimitsHold(rank, weights, initialLimits, maxWeight, log, n - 1);
      BoundedStepLimits(rank, weights, initialLimits, maxWeight, log, n - 1);
      assert BoundedStepAt(rank, weights, initialLimits, maxWeight, log, n - 1);
    } else {
      assert s[..n] == [];
    }
    forall i | 0 <= i < |weights| ensures multiset(s[..n])[i] <= initialLimits[i] {
      LimitsCountSteps(initialLimits, s[..n], i);
    }
  }

  /** Fewer units and less capacity never move the first available position
      back, and an item before it at the larger state is not eligible at the
      smaller one. */
  lemma AvailablePositionAdvances(rank: seq<nat>, weights: seq<int>, limitsBefore: seq<int>, larger: int,
                                  limitsAfter: seq<int>, smaller: int)
    requires InCatalog(|weights|, rank) && |limitsBefore| == |limitsAfter| == |weights|
    requires smaller <= larger
    requires forall i :: 0 <= i < |weights| ==> 0 <= limitsAfter[i] <= limitsBefore[i]
    requires FirstAvailable(rank, weights, limitsBefore, larger).Some?
    requires FirstAvailable(rank, weights, limitsAfter, smaller).Some?
    ensures FirstAvailable(rank, weights, limitsBefore, larger).value
         <= FirstAvailable(rank, weights, limitsAfter, smaller).value
    ensures forall j :: 0 <= j < FirstAvailable(rank, weights, limitsBefore, larger).value ==>
              limitsAfter[rank[j]] == 0 || weights[rank[j]] > smaller
  {
  }

  /** Limits only go down along a bounded run. */
  lemma BoundedLimitsShrink(rank: seq<nat>, weights: seq<int>, initialLimits: seq<int>,
                            maxWeight: int, log: seq<OfflineStep>, k: nat, l: nat)
    requires InCatalog(|weights|, rank) && |initialLimits| == |weights|
    requires forall i :: 0 <= i < |initialLimits| ==> initialLimits[i] >= 0
    requires BoundedGreedyLog(rank, weights, initialLimits, maxWeight, log)
    requires k <= l < |log|
    ensures |log[k].limits| == |log[l].limits| == |weights|
    ensures forall i :: 0 <= i < |weights| ==> 0 <= log[l].limits[i] <= log[k].limits[i]
  {
    var s := Stepped(log);
    BoundedLimitsHold(rank, weights, initialLimits, maxWeight, log, l);
    assert BoundedStepAt(rank, weights, initialLimits, maxWeight, log, k);
    assert BoundedStepAt(rank, weights, initialLimits, maxWeight, log, l);
    assert s[..l] == s[..k] + s[k..l];
    forall i | 0 <= i < |weights| ensures log[l].limits[i] <= log[k].limits[i] {
      LimitsCountSteps(initialLimits, s[..k], i);
      LimitsCountSteps(initialLimits, s[..l], i);
    }
  }

  /** In a bounded run the residual capacity before step l is the one
      before step k less the weight of the steps in between. */
  lemma BoundedResiduals(rank: seq<nat>, weights: seq<int>, initialLimits: seq<int>,
                         maxWeight: int, log: seq<OfflineStep>, k: nat, l: nat)
    requires forall i :: 0 <= i < |weights| ==> weights[i] > 0
    requires InCatalog(|weights|, rank) && |initialLimits| == |weights|
    requires BoundedGreedyLog(rank, weights, initialLimits, maxWeight, log)
    requires k <= l < |log|
    ensures log[l].residual <= log[k].residual
    ensures l == k + 1 ==> log[l].residual == log[k].residual - weights[Stepped(log)[k]]
  {
    var s := Stepped(log);
    assert BoundedStepAt(rank, weights, initialLimits, maxWeight, log, k);
    assert BoundedStepAt(rank, weights, initialLimits, maxWeight, log, l);
    PrefixWeightGrows(weights, s, k, l);
    if l == k + 1 {
      assert s[..l][..k] == s[..k];
    }
  }

  /** The bounded run has the same shape as the unbounded one: the picked
      position never moves back, an item passed over (exhausted or too heavy)
      before step k is never stepped at step k or after, and an item that is
      still available and still fits after being stepped is stepped again. */
  lemma BoundedRunShape(rank: seq<nat>, weights: seq<int>, initialLimits: seq<int>,
                        maxWeight: int, log: seq<OfflineStep>, k: nat, l: nat)
    requires forall i :: 0 <= i < |weights| ==> weights[i] > 0
    requires forall i :: 0 <= i < |initialLimits| ==> initialLimits[i] >= 0
    requires InCatalog(|weights|, rank) && |initialLimits| == |weights|
    requires BoundedGreedyLog(rank, weights, initialLimits, maxWeight, log)
    requires k <= l < |log|
    ensures AvailablePick(rank, weights, log[k]) && AvailablePick(rank, weights, log[l])
    ensures FirstAvailable(rank, weights, log[k].limits, log[k].residual).value
         <= FirstAvailable(rank, weights, log[l].limits, log[l].residual).value
    ensures forall j :: 0 <= j < FirstAvailable(rank, weights, log[k].limits, log[k].residual).value ==>
              rank[j] != log[l].item
    ensures l == k + 1 && log[l].limits[log[k].item] != 0 && weights[log[k].item] <= log[l].residual ==>
              log[l].item == log[k].item
  {
    assert BoundedStepAt(rank, weights, initialLimits, maxWeight, log, k);
    assert BoundedStepAt(rank, weights, initialLimits, maxWeight, log, l);
    BoundedResiduals(rank, weights, initialLimits, maxWeight, log, k, l);
    BoundedLimitsShrink(rank, weights, initialLimits, maxWeight, log, k, l);
    AvailablePositionAdvances(rank, weights, log[k].limits, log[k].residual, log[l].limits, log[l].residual);
  }

  /** Appending a first-fit step at the current residual keeps an unbounded log greedy. */
  lemma UnboundedLogExtends(rank: seq<nat>, weights: seq<int>, maxWeight: int, log: seq<OfflineStep>, s: OfflineStep)
    requires InCatalog(|weights|, rank) && UnboundedGreedyLog(rank, weights, maxWeight, log)
    requires s.residual == maxWeight - TotalWeight(weights, Stepped(log)) && FitPick(rank, weights, s)
    ensures UnboundedGreedyLog(rank, weights, maxWeight, log + [s])
  {
    var log' := log + [s];
    StepAppend(log, s);
    assert Stepped(log')[..|log|] == Stepped(log);
    forall k | 0 <= k < |log'| ensures UnboundedStepAt(rank, weights, maxWeight, log', k) {
      if k < |log| {
        assert UnboundedStepAt(rank, weights, maxWeight, log, k);
        assert Stepped(log')[..k] == Stepped(log)[..k] && log'[k] == log[k];
      }
    }
  }

  /** Appending a first-available step at the current residual and limits keeps a bounded log greedy. */
  lemma BoundedLogExtends(rank: seq<nat>, weights: seq<int>, initialLimits: seq<int>, maxWeight: int,
                          log: seq<OfflineStep>, s: OfflineStep)
    requires InCatalog(|weights|, rank) && |initialLimits| == |weights|
    requires BoundedGreedyLog(rank, weights, initialLimits, maxWeight, log)
    requires s.residual == maxWeight - TotalWeight(weights, Stepped(log))
    requires s.limits == LimitsAfter(initialLimits, Stepped(log)) && AvailablePick(rank, weights, s)
    ensures BoundedGreedyLog(rank, weights, initialLimits, maxWeight, log + [s])
  {
    var log' := log + [s];
    StepAppend(log, s);
    assert Stepped(log')[..|log|] == Stepped(log);
    forall k | 0 <= k < |log'| ensures BoundedStepAt(rank, weights, initialLimits, maxWeight, log', k) {
      if k < |log| {
        assert BoundedStepAt(rank, weights, initialLimits, maxWeight, log, k);
        assert Stepped(log')[..k] == Stepped(log)[..k] && log'[k] == log[k];
      }
    }
  }
}
