/** The stepwise knapsack environment the policies drive, reduced to what
    they read and what their steps change. The reward rule, the early-stop
    rule and the sampling of online items belong to the environment and are
    left free by these contracts; each class keeps a ghost log of every step
    so that the policies' contracts can speak about the whole run. */
module Environment {
  import opened Outcomes

  /** One offline step: the item stepped, the residual capacity and the
      availability limits just before the step, and the reward and `done`
      flag returned. */
  datatype OfflineStep = OfflineStep(item: nat, residual: int, limits: seq<int>, reward: int, done: bool)

  /** One online step: the environment's current item, the residual capacity
      just before the step, the action received, and the reward and `done`
      flag returned. */
  datatype OnlineStep = OnlineStep(item: nat, residual: int, action: int, reward: int, done: bool)

  /** Total weight of a sequence of item identifiers, counting repeats. */
  function TotalWeight(weights: seq<int>, items: seq<nat>): (w: int)
    requires forall k :: 0 <= k < |items| ==> items[k] < |weights|
  {
    if items == [] then 0
    else TotalWeight(weights, items[..|items| - 1]) + weights[items[|items| - 1]]
  }

  /** Adding one more item adds its weight. */
  lemma TotalWeightAppend(weights: seq<int>, items: seq<nat>, x: nat)
    requires (forall k :: 0 <= k < |items| ==> items[k] < |weights|) && x < |weights|
    ensures TotalWeight(weights, items + [x]) == TotalWeight(weights, items) + weights[x]
  {
    assert (items + [x])[..|items|] == items;
  }

  /** Putting one more item in front adds its weight. */
  lemma {:induction false} TotalWeightCons(weights: seq<int>, x: nat, items: seq<nat>)
    requires (forall k :: 0 <= k < |items| ==> items[k] < |weights|) && x < |weights|
    ensures TotalWeight(weights, [x] + items) == weights[x] + TotalWeight(weights, items)
  {
    if items != [] {
      var front := items[..|items| - 1];
      TotalWeightCons(weights, x, front);
      assert ([x] + items)[..|items|] == [x] + front;
    }
  }

  /** With non-negative weights a longer prefix never weighs less; with
      positive weights it weighs strictly more. */
  lemma {:induction false} PrefixWeightGrows(weights: seq<int>, items: seq<nat>, k: nat, l: nat)
    requires forall i :: 0 <= i < |weights| ==> weights[i] >= 0
    requires (forall j :: 0 <= j < |items| ==> items[j] < |weights|) && k <= l <= |items|
    ensures TotalWeight(weights, items[..k]) <= TotalWeight(weights, items[..l])
    ensures k < l && (forall i :: 0 <= i < |weights| ==> weights[i] > 0) ==>
              TotalWeight(weights, items[..k]) < TotalWeight(weights, items[..l])
  {
    if k < l {
      PrefixWeightGrows(weights, items, k, l - 1);
      assert items[..l][..l - 1] == items[..l - 1];
    }
  }

  /** Availability limits after one unit of each listed item has been used up, in order. */
  function LimitsAfter(initial: seq<int>, items: seq<nat>): (r: seq<int>)
    requires forall k :: 0 <= k < |items| ==> items[k] < |initial|
    ensures |r| == |initial|
  {
    if items == [] then initial
    else
      var before := LimitsAfter(initial, items[..|items| - 1]);
      var x := items[|items| - 1];
      before[x := before[x] - 1]
  }

  /** Using up one more unit of `x` lowers its limit by one. */
  lemma LimitsAfterAppend(initial: seq<int>, items: seq<nat>, x: nat)
    requires (forall k :: 0 <= k < |items| ==> items[k] < |initial|) && x < |initial|
    ensures LimitsAfter(initial, items + [x])
         == LimitsAfter(initial, items)[x := LimitsAfter(initial, items)[x] - 1]
  {
    assert (items + [x])[..|items|] == items;
  }

  /** The items stepped in an offline run, in order. */
  function Stepped(log: seq<OfflineStep>): (items: seq<nat>)
  {
    seq(|log|, k requires 0 <= k < |log| => log[k].item)
  }

  /** The rewards observed in an offline run, in order. */
  function Rewards(log: seq<OfflineStep>): (rewards: seq<int>)
  {
    seq(|log|, k requires 0 <= k < |log| => log[k].reward)
  }

  /** One more step adds one item and one reward at the end. */
  lemma StepAppend(log: seq<OfflineStep>, s: OfflineStep)
    ensures Stepped(log + [s]) == Stepped(log) + [s.item]
    ensures Rewards(log + [s]) == Rewards(log) + [s.reward]
  {
  }

  /** The items an online run actually put in the knapsack: those offered at
      a step with action 1 that fit the residual capacity, in order. */
  function Admitted(weights: seq<int>, log: seq<OnlineStep>): (items: seq<nat>)
    requires forall k :: 0 <= k < |log| ==> log[k].item < |weights|
    ensures |items| <= |log| && forall k :: 0 <= k < |items| ==> items[k] < |weights|
  {
    if log == [] then []
    else
      var s := log[|log| - 1];
      Admitted(weights, log[..|log| - 1]) + (if s.action == 1 && weights[s.item] <= s.residual then [s.item] else [])
  }

  /** One more online step admits its item exactly when it was accepted and fit. */
  lemma AdmittedAppend(weights: seq<int>, log: seq<OnlineStep>, s: OnlineStep)
    requires (forall k :: 0 <= k < |log| ==> log[k].item < |weights|) && s.item < |weights|
    ensures Admitted(weights, log + [s])
         == Admitted(weights, log) + (if s.action == 1 && weights[s.item] <= s.residual then [s.item] else [])
  {
    assert (log + [s])[..|log|] == log;
  }

  /** The unbounded (Knapsack-v0) and bounded (Knapsack-v1) environments. */
  class OfflineEnv {
    const specId: string
    const itemValues: seq<int>
    const itemWeights: seq<int>
    const maxWeight: int
    const stepLimit: nat
    /** The availability limits that `Reset` restores. */
    const initialLimits: seq<int>

    var currentWeight: int
    var itemLimits: seq<int>
    var stepCount: nat
    ghost var log: seq<OfflineStep>

    ghost predicate Valid()
      reads this
    {
      && |itemValues| == |itemWeights| == |initialLimits| == |itemLimits|
      && (forall i :: 0 <= i < |itemWeights| ==> itemWeights[i] > 0)
      && (forall i :: 0 <= i < |initialLimits| ==> initialLimits[i] >= 0)
      && maxWeight >= 0
      && stepLimit > 0
    }

    constructor (id: string, values: seq<int>, weights: seq<int>, limits: seq<int>, capacity: int, budget: nat)
      requires |values| == |weights| == |limits|
      requires forall i :: 0 <= i < |weights| ==> weights[i] > 0
      requires forall i :: 0 <= i < |limits| ==> limits[i] >= 0
      requires capacity >= 0 && budget > 0
      ensures Valid()
      ensures specId == id && itemValues == values && itemWeights == weights
      ensures initialLimits == limits && maxWeight == capacity && stepLimit == budget
    {
      specId, itemValues, itemWeights := id, values, weights;
      initialLimits, itemLimits := limits, limits;
      maxWeight, stepLimit := capacity, budget;
      currentWeight, stepCount := 0, 0;
      log := [];
    }

    /** Empties the knapsack, restores the availability limits and restarts the step budget. */
    method Reset()
      requires Valid()
      modifies this
      ensures Valid()
      ensures currentWeight == 0 && itemLimits == initialLimits && stepCount == 0 && log == []
    {
      currentWeight, itemLimits, stepCount := 0, initialLimits, 0;
      log := [];
    }

    /** Puts one copy of `item` in the knapsack; the bounded variant also uses up
        one unit of its availability. `done` is certain once the step budget is spent. */
    method Step(item: nat) returns (reward: int, done: bool)
      requires Valid() && item < |itemWeights|
      modifies this
      ensures Valid()
      ensures currentWeight == old(currentWeight) + itemWeights[item]
      ensures itemLimits == if specId == BoundedId then old(itemLimits)[item := old(itemLimits)[item] - 1]
                            else old(itemLimits)
      ensures stepCount == old(stepCount) + 1
      ensures stepCount >= stepLimit ==> done
      ensures log == old(log) + [OfflineStep(item, old(maxWeight - currentWeight), old(itemLimits), reward, done)]
    {
      // the environment's reward rule is outside this model; no contract depends on this value
      reward := itemValues[item];
      done :| stepCount + 1 >= stepLimit ==> done;
      log := log + [OfflineStep(item, maxWeight - currentWeight, itemLimits, reward, done)];
      currentWeight := currentWeight + itemWeights[item];
      if specId == BoundedId {
        itemLimits := itemLimits[item := itemLimits[item] - 1];
      }
      stepCount := stepCount + 1;
    }
  }

  /** The online (Knapsack-v2) environment: one item is on offer at a time,
      and a step accepts (action 1) or rejects it. */
  class OnlineEnv {
    const specId: string
    const itemValues: seq<int>
    const itemWeights: seq<int>
    const maxWeight: int
    const stepLimit: nat

    var currentWeight: int
    var currentItem: nat
    var stepCount: nat
    ghost var log: seq<OnlineStep>

    ghost predicate Valid()
      reads this
    {
      && |itemValues| == |itemWeights|
      && (forall i :: 0 <= i < |itemWeights| ==> itemWeights[i] >= 0)
      && currentItem < |itemWeights|
      && maxWeight >= 0
      && stepLimit > 0
    }

    constructor (id: string, values: seq<int>, weights: seq<int>, capacity: int, budget: nat)
      requires |values| == |weights| > 0
      requires forall i :: 0 <= i < |weights| ==> weights[i] >= 0
      requires capacity >= 0 && budget > 0
      ensures Valid()
      ensures specId == id && itemValues == values && itemWeights == weights
      ensures maxWeight == capacity && stepLimit == budget
    {
      specId, itemValues, itemWeights := id, values, weights;
      maxWeight, stepLimit := capacity, budget;
      currentWeight, currentItem, stepCount := 0, 0, 0;
      log := [];
    }

    /** Empties the knapsack, restarts the step budget and puts some item on offer. */
    method Reset()
      requires Valid()
      modifies this
      ensures Valid()
      ensures currentWeight == 0 && stepCount == 0 && log == []
    {
      currentWeight, stepCount := 0, 0;
      var next: nat :| next < |itemWeights|;
      currentItem := next;
      log := [];
    }

    /** Action 1 puts the offered item in the knapsack when it fits; any other
        action leaves the knapsack as it is. Then the next item is put on offer. */
    method Step(action: int) returns (reward: int, done: bool)
      requires Valid()
      modifies this
      ensures Valid()
      ensures currentWeight == if action == 1 && itemWeights[old(currentItem)] <= old(maxWeight - currentWeight)
                               then old(currentWeight) + itemWeights[old(currentItem)]
                               else old(currentWeight)
      ensures stepCount == old(stepCount) + 1
      ensures stepCount >= stepLimit ==> done
      ensures log == old(log) + [OnlineStep(old(currentItem), old(maxWeight - currentWeight), action, reward, done)]
    {
      var accepted := action == 1 && itemWeights[currentItem] <= maxWeight - currentWeight;
      // the environment's reward rule is outside this model; no contract depends on this value
      reward := if accepted then itemValues[currentItem] else 0;
      done :| stepCount + 1 >= stepLimit ==> done;
      log := log + [OnlineStep(currentItem, maxWeight - currentWeight, action, reward, done)];
      if accepted {
        currentWeight := currentWeight + itemWeights[currentItem];
      }
      stepCount := stepCount + 1;
      var next: nat :| next < |itemWeights|;
      currentItem := next;
    }
  }
}
