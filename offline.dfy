/** The offline greedy policies: `ukp_heuristic` (unbounded, Knapsack-v0) and
    `bkp_heuristic` (bounded, Knapsack-v1). Each ranks the catalog once, then
    repeatedly looks at the head of the ranking: an ineligible head is dropped
    for good without stepping, an eligible one is stepped on and stays at the
    head. */
module Offline {
  import opened Outcomes
  import opened Ranking
  import opened Environment
  import opened Selection

  // ---------------------------------------------------------------------------
  // Unbounded (Knapsack-v0)
  // ---------------------------------------------------------------------------

  /** The state of `ukp_heuristic`'s loop: the first `pruned` items of the
      ranking have been dropped, the log is a greedy run whose items and
      rewards are the ones recorded, the knapsack holds exactly the items
      stepped and is within capacity, and no dropped item fits what is left. */
  ghost predicate UnboundedProgress(rank: seq<nat>, weights: seq<int>, maxWeight: int, pruned: nat,
                                    log: seq<OfflineStep>, currentWeight: int, actions: seq<nat>, rewards: seq<int>)
    requires InCatalog(|weights|, rank)
  {
    && pruned <= |rank|
    && actions == Stepped(log) && rewards == Rewards(log)
    && UnboundedGreedyLog(rank, weights, maxWeight, log)
    && currentWeight == TotalWeight(weights, Stepped(log)) <= maxWeight
    && forall j :: 0 <= j < pruned ==> weights[rank[j]] > maxWeight - currentWeight
  }

  /** Dropping a head that does not fit keeps the loop state. */
  lemma UnboundedPruneKeeps(rank: seq<nat>, weights: seq<int>, maxWeight: int, pruned: nat,
                            log: seq<OfflineStep>, currentWeight: int, actions: seq<nat>, rewards: seq<int>)
    requires InCatalog(|weights|, rank)
    requires UnboundedProgress(rank, weights, maxWeight, pruned, log, currentWeight, actions, rewards)
    requires pruned < |rank| && weights[rank[pruned]] > maxWeight - currentWeight
    ensures UnboundedProgress(rank, weights, maxWeight, pruned + 1, log, currentWeight, actions, rewards)
  {
  }

  /** Stepping on a head that fits keeps the loop state, with the step logged
      and recorded. */
  lemma UnboundedStepKeeps(rank: seq<nat>, weights: seq<int>, maxWeight: int, pruned: nat,
                           log: seq<OfflineStep>, currentWeight: int, actions: seq<nat>, rewards: seq<int>,
                           s: OfflineStep)
    requires forall i :: 0 <= i < |weights| ==> weights[i] > 0
    requires InCatalog(|weights|, rank)
    requires UnboundedProgress(rank, weights, maxWeight, pruned, log, currentWeight, actions, rewards)
    requires pruned < |rank| && weights[rank[pruned]] <= maxWeight - currentWeight
    requires s.item == rank[pruned] && s.residual == maxWeight - currentWeight
    ensures UnboundedProgress(rank, weights, maxWeight, pruned, log + [s], currentWeight + weights[s.item],
                              actions + [s.item], rewards + [s.reward])
  {
    FirstFitIs(rank, weights, s.residual, pruned);
    UnboundedLogExtends(rank, weights, maxWeight, log, s);
    StepAppend(log, s);
    TotalWeightAppend(weights, Stepped(log), s.item);
  }

  /** `ukp_heuristic`'s "select max_item" block: one step of the environment
      on the head of the ranking, which fits. The loop state carries over with
      the step logged and its weight added; the limits are untouched. */
  method UnboundedSelect(env: OfflineEnv, item: nat, ghost rank: seq<nat>, ghost pruned: nat,
                         ghost actions: seq<nat>, ghost rewards: seq<int>)
    returns (reward: int, done: bool)
    requires env.Valid() && env.specId == UnboundedId && env.itemLimits == env.initialLimits
    requires InCatalog(|env.itemWeights|, rank)
    requires UnboundedProgress(rank, env.itemWeights, env.maxWeight, pruned, env.log, env.currentWeight,
                               actions, rewards)
    requires pruned < |rank| && item == rank[pruned]
    requires env.itemWeights[item] <= env.maxWeight - env.currentWeight
    requires forall k :: 0 <= k < |env.log| ==> !env.log[k].done
    modifies env
    ensures env.Valid() && env.itemLimits == env.initialLimits
    ensures UnboundedProgress(rank, env.itemWeights, env.maxWeight, pruned, env.log, env.currentWeight,
                              actions + [item], rewards + [reward])
    ensures env.stepCount == old(env.stepCount) + 1 && |env.log| == |old(env.log)| + 1
    ensures forall k :: 0 <= k < |env.log| ==> env.log[k].done == (done && k == |env.log| - 1)
    ensures env.stepCount >= env.stepLimit ==> done
  {
    ghost var before, weightBefore := env.log, env.currentWeight;
    reward, done := env.Step(item);
    ghost var record := env.log[|before|];
    assert env.log == before + [record];
    UnboundedStepKeeps(rank, env.itemWeights, env.maxWeight, pruned, before, weightBefore, actions, rewards, record);
  }

  /** `ukp_heuristic`: after the variant check and a reset, steps on the
      densest item that fits, again and again, until the environment reports
      `done`. The run is a greedy log over a density ranking `rank` of the
      catalog, the knapsack never exceeds its capacity, the trace returned is
      exactly what was stepped and observed, and the run stops at the first
      step that reported `done`. When nothing in the ranking fits before
      `done`, the source indexes an empty list; here that is
      `RankingExhausted`, and no step has reported `done`. */
  method UkpHeuristic(env: OfflineEnv) returns (outcome: Result<OfflineTrace, PolicyError>, ghost rank: seq<nat>)
    requires env.Valid()
    modifies env
    ensures env.Valid()
    ensures env.specId != UnboundedId ==> outcome == Failure(WrongVariant(env.specId)) && unchanged(env)
    ensures env.specId == UnboundedId ==>
      && DensityRanking(env.itemValues, env.itemWeights, rank)
      && UnboundedGreedyLog(rank, env.itemWeights, env.maxWeight, env.log)
      && env.currentWeight == TotalWeight(env.itemWeights, Stepped(env.log)) <= env.maxWeight
      && env.itemLimits == env.initialLimits
      && env.stepCount == |env.log| <= env.stepLimit
    ensures env.specId == UnboundedId && outcome.Success? ==>
      && outcome.value.actions == Stepped(env.log) && outcome.value.rewards == Rewards(env.log)
      && env.log != [] && env.log[|env.log| - 1].done
      && forall k :: 0 <= k < |env.log| - 1 ==> !env.log[k].done
    ensures env.specId == UnboundedId && outcome.Failure? ==>
      && outcome.error == RankingExhausted
      && FirstFit(rank, env.itemWeights, env.maxWeight - env.currentWeight).None?
      && forall k :: 0 <= k < |env.log| ==> !env.log[k].done
  {
    rank := [];
    if env.specId != UnboundedId {
      return Failure(WrongVariant(env.specId)), rank;
    }
    env.Reset();
    rank := VwOrder(env.itemValues, env.itemWeights);
    var vwOrder := VwOrder(env.itemValues, env.itemWeights);
    ghost var pruned := 0;
    var actions: seq<nat>, rewards: seq<int> := [], [];
    var done, exhausted := false, false;
    while !done
      invariant env.Valid() && env.itemLimits == env.initialLimits
      invariant UnboundedProgress(rank, env.itemWeights, env.maxWeight, pruned, env.log, env.currentWeight,
                                  actions, rewards)
      invariant vwOrder == rank[pruned..]
      invariant env.stepCount == |env.log| <= env.stepLimit
      invariant !done ==> env.stepCount < env.stepLimit
      invariant done ==> env.log != []
      invariant forall k :: 0 <= k < |env.log| ==> env.log[k].done == (done && k == |env.log| - 1)
      decreases env.stepLimit - env.stepCount, |vwOrder|
    {
      if vwOrder == [] {
        // the head of an empty ranking does not exist
        FirstFitIs(rank, env.itemWeights, env.maxWeight - env.currentWeight, pruned);
        exhausted := true;
        break;
      }
      var maxItem := vwOrder[0];
      if env.itemWeights[maxItem] > env.maxWeight - env.currentWeight {
        UnboundedPruneKeeps(rank, env.itemWeights, env.maxWeight, pruned, env.log, env.currentWeight,
                            actions, rewards);
        assert vwOrder[1..] == rank[pruned + 1..];
        vwOrder, pruned := vwOrder[1..], pruned + 1;
        continue;
      }
      var reward;
      reward, done := UnboundedSelect(env, maxItem, rank, pruned, actions, rewards);
      actions := actions + [maxItem];
      rewards := rewards + [reward];
    }
    if exhausted {
      return Failure(RankingExhausted), rank;
    }
    return Success(OfflineTrace(actions, rewards)), rank;
  }

  // ---------------------------------------------------------------------------
  // Bounded (Knapsack-v1)
  // ---------------------------------------------------------------------------

  /** The state of `bkp_heuristic`'s loop: as for the unbounded loop, and the
      limits are the initial ones less one unit per step on each item; every
      dropped item is exhausted or does not fit what is left. */
  ghost predicate BoundedProgress(rank: seq<nat>, weights: seq<int>, initialLimits: seq<int>, maxWeight: int,
                                  pruned: nat, log: seq<OfflineStep>, currentWeight: int, limits: seq<int>,
                                  actions: seq<nat>, rewards: seq<int>)
    requires InCatalog(|weights|, rank) && |initialLimits| == |weights|
  {
    && pruned <= |rank|
    && actions == Stepped(log) && rewards == Rewards(log)
    && BoundedGreedyLog(rank, weights, initialLimits, maxWeight, log)
    && currentWeight == TotalWeight(weights, Stepped(log)) <= maxWeight
    && limits == LimitsAfter(initialLimits, Stepped(log))
    && forall j :: 0 <= j < pruned ==> limits[rank[j]] == 0 || weights[rank[j]] > maxWeight - currentWeight
  }

  /** Dropping a head that is exhausted or does not fit keeps the loop state. */
  lemma BoundedPruneKeeps(rank: seq<nat>, weights: seq<int>, initialLimits: seq<int>, maxWeight: int,
                          pruned: nat, log: seq<OfflineStep>, currentWeight: int, limits: seq<int>,
                          actions: seq<nat>, rewards: seq<int>)
    requires InCatalog(|weights|, rank) && |initialLimits| == |weights|
    requires BoundedProgress(rank, weights, initialLimits, maxWeight, pruned, log, currentWeight, limits,
                             actions, rewards)
    requires pruned < |rank|
    requires limits[rank[pruned]] == 0 || weights[rank[pruned]] > maxWeight - currentWeight
    ensures BoundedProgress(rank, weights, initialLimits, maxWeight, pruned + 1, log, currentWeight, limits,
                            actions, rewards)
  {
  }

  /** Stepping on a head that is available and fits keeps the loop state, with
      the step logged and recorded and one unit of the item used up. */
  lemma BoundedStepKeeps(rank: seq<nat>, weights: seq<int>, initialLimits: seq<int>, maxWeight: int,
                         pruned: nat, log: seq<OfflineStep>, currentWeight: int, limits: seq<int>,
                         actions: seq<nat>, rewards: seq<int>, s: OfflineStep)
    requires forall i :: 0 <= i < |weights| ==> weights[i] > 0
    requires InCatalog(|weights|, rank) && |initialLimits| == |weights|
    requires BoundedProgress(rank, weights, initialLimits, maxWeight, pruned, log, currentWeight, limits,
                             actions, rewards)
    requires pruned < |rank| && limits[rank[pruned]] != 0 && weights[rank[pruned]] <= maxWeight - currentWeight
    requires s.item == rank[pruned] && s.residual == maxWeight - currentWeight && s.limits == limits
    ensures BoundedProgress(rank, weights, initialLimits, maxWeight, pruned, log + [s],
                            currentWeight + weights[s.item], limits[s.item := limits[s.item] - 1],
                            actions + [s.item], rewards + [s.reward])
  {
    FirstAvailableIs(rank, weights, limits, s.residual, pruned);
    BoundedLogExtends(rank, weights, initialLimits, maxWeight, log, s);
    StepAppend(log, s);
    TotalWeightAppend(weights, Stepped(log), s.item);
    LimitsAfterAppend(initialLimits, Stepped(log), s.item);
  }

  /** `bkp_heuristic`'s "select max_item" block: one step of the environment
      on the head of the ranking, which is available and fits. The loop state
      carries over with the step logged, its weight added and one unit of it
      used up. */
  method BoundedSelect(env: OfflineEnv, item: nat, ghost rank: seq<nat>, ghost pruned: nat,
                       ghost actions: seq<nat>, ghost rewards: seq<int>)
    returns (reward: int, done: bool)
    requires env.Valid() && env.specId == BoundedId && InCatalog(|env.itemWeights|, rank)
    requires BoundedProgress(rank, env.itemWeights, env.initialLimits, env.maxWeight, pruned, env.log,
                             env.currentWeight, env.itemLimits, actions, rewards)
    requires pruned < |rank| && item == rank[pruned]
    requires env.itemLimits[item] != 0 && env.itemWeights[item] <= env.maxWeight - env.currentWeight
    requires forall k :: 0 <= k < |env.log| ==> !env.log[k].done
    modifies env
    ensures env.Valid()
    ensures BoundedProgress(rank, env.itemWeights, env.initialLimits, env.maxWeight, pruned, env.log,
                            env.currentWeight, env.itemLimits, actions + [item], rewards + [reward])
    ensures env.stepCount == old(env.stepCount) + 1 && |env.log| == |old(env.log)| + 1
    ensures forall k :: 0 <= k < |env.log| ==> env.log[k].done == (done && k == |env.log| - 1)
    ensures env.stepCount >= env.stepLimit ==> done
  {
    ghost var before, weightBefore, limits := env.log, env.currentWeight, env.itemLimits;
    reward, done := env.Step(item);
    ghost var record := env.log[|before|];
    assert env.log == before + [record];
    BoundedStepKeeps(rank, env.itemWeights, env.initialLimits, env.maxWeight, pruned, before, weightBefore,
                     limits, actions, rewards, record);
  }

  /** `bkp_heuristic`: as `ukp_heuristic`, but an item is also dropped once its
      availability limit is zero (checked before its weight), and each step
      uses up one unit of the item. Besides the greedy-log and capacity
      guarantees, the limits left are the initial ones less the steps taken
      (so no limit goes below zero, see `BoundedLimitsHold`), and the run
      stops at the first step that reported `done`. */
  method BkpHeuristic(env: OfflineEnv) returns (outcome: Result<OfflineTrace, PolicyError>, ghost rank: seq<nat>)
    requires env.Valid()
    modifies env
    ensures env.Valid()
    ensures env.specId != BoundedId ==> outcome == Failure(WrongVariant(env.specId)) && unchanged(env)
    ensures env.specId == BoundedId ==>
      && DensityRanking(env.itemValues, env.itemWeights, rank)
      && BoundedGreedyLog(rank, env.itemWeights, env.initialLimits, env.maxWeight, env.log)
      && env.currentWeight == TotalWeight(env.itemWeights, Stepped(env.log)) <= env.maxWeight
      && env.itemLimits == LimitsAfter(env.initialLimits, Stepped(env.log))
      && env.stepCount == |env.log| <= env.stepLimit
    ensures env.specId == BoundedId && outcome.Success? ==>
      && outcome.value.actions == Stepped(env.log) && outcome.value.rewards == Rewards(env.log)
      && env.log != [] && env.log[|env.log| - 1].done
      && forall k :: 0 <= k < |env.log| - 1 ==> !env.log[k].done
    ensures env.specId == BoundedId && outcome.Failure? ==>
      && outcome.error == RankingExhausted
      && FirstAvailable(rank, env.itemWeights, env.itemLimits, env.maxWeight - env.currentWeight).None?
      && forall k :: 0 <= k < |env.log| ==> !env.log[k].done
  {
    rank := [];
    if env.specId != BoundedId {
      return Failure(WrongVariant(env.specId)), rank;
    }
    env.Reset();
    rank := VwOrder(env.itemValues, env.itemWeights);
    var vwOrder := VwOrder(env.itemValues, env.itemWeights);
    ghost var pruned := 0;
    var actions: seq<nat>, rewards: seq<int> := [], [];
    var done, exhausted := false, false;
    while !done
      invariant env.Valid()
      invariant BoundedProgress(rank, env.itemWeights, env.initialLimits, env.maxWeight, pruned, env.log,
                                env.currentWeight, env.itemLimits, actions, rewards)
      invariant vwOrder == rank[pruned..]
      invariant env.stepCount == |env.log| <= env.stepLimit
      invariant !done ==> env.stepCount < env.stepLimit
      invariant done ==> env.log != []
      invariant forall k :: 0 <= k < |env.log| ==> env.log[k].done == (done && k == |env.log| - 1)
      decreases env.stepLimit - env.stepCount, |vwOrder|
    {
      if vwOrder == [] {
        // the head of an empty ranking does not exist
        FirstAvailableIs(rank, env.itemWeights, env.itemLimits, env.maxWeight - env.currentWeight, pruned);
        exhausted := true;
        break;
      }
      var maxItem := vwOrder[0];
      // an item with no units left, then one that does not fit, is dropped
      if env.itemLimits[maxItem] == 0 || env.itemWeights[maxItem] > env.maxWeight - env.currentWeight {
        BoundedPruneKeeps(rank, env.itemWeights, env.initialLimits, env.maxWeight, pruned, env.log,
                          env.currentWeight, env.itemLimits, actions, rewards);
        assert vwOrder[1..] == rank[pruned + 1..];
        vwOrder, pruned := vwOrder[1..], pruned + 1;
        continue;
      }
      var reward;
      reward, done := BoundedSelect(env, maxItem, rank, pruned, actions, rewards);
      actions := actions + [maxItem];
      rewards := rewards + [reward];
    }
    if exhausted {
      return Failure(RankingExhausted), rank;
    }
    return Success(OfflineTrace(actions, rewards)), rank;
  }
}
