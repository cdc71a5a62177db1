/** The online policy `okp_heuristic` ("TwoBins"): items are offered one at a
    time and each is accepted (action 1) or rejected (action 0) on the spot.
    A coin flip, fixed for the run, picks the strategy: A (greedy) accepts an
    item that fits what is left; B keeps a running total of the weight offered
    and accepts every item once that total exceeds the capacity. */
module Online {
  import opened Outcomes
  import opened Ranking
  import opened Environment

  /** The action TwoBins takes on the last item of `offered`, given the
      residual capacity observed at that step. */
  function TwoBinsAction(weights: seq<int>, maxWeight: int, greedy: bool, offered: seq<nat>, residual: int)
    : (action: int)
    requires |offered| > 0 && InCatalog(|weights|, offered)
    ensures action == 0 || action == 1
  {
    if greedy then (if weights[offered[|offered| - 1]] <= residual then 1 else 0)
    else (if TotalWeight(weights, offered) > maxWeight then 1 else 0)
  }

  /** Step k of an online run, as TwoBins drives it: it started from the
      residual capacity the items admitted at the k earlier steps left, the
      recorded action and reward are the environment's, the offered item is
      the scenario's k-th (or, without a scenario, the environment's current
      item), and the action follows the strategy on the items offered so far. */
  ghost predicate TwoBinsStepAt(weights: seq<int>, maxWeight: int, scenario: Option<seq<nat>>, greedy: bool,
                                log: seq<OnlineStep>, actions: seq<int>, offered: seq<nat>, rewards: seq<int>, k: nat)
    requires |actions| == |offered| == |rewards| == |log| && InCatalog(|weights|, offered) && k < |log|
    requires forall j :: 0 <= j < |log| ==> log[j].item < |weights|
  {
    && log[k].residual == maxWeight - TotalWeight(weights, Admitted(weights, log[..k]))
    && actions[k] == log[k].action
    && rewards[k] == log[k].reward
    && (match scenario
        case Some(items) => k < |items| && offered[k] == items[k]
        case None => offered[k] == log[k].item)
    && actions[k] == TwoBinsAction(weights, maxWeight, greedy, offered[..k + 1], log[k].residual)
  }

  /** A whole online run: one action, one offered item and one reward per step. */
  ghost predicate TwoBinsLog(weights: seq<int>, maxWeight: int, scenario: Option<seq<nat>>, greedy: bool,
                             log: seq<OnlineStep>, actions: seq<int>, offered: seq<nat>, rewards: seq<int>)
  {
    && |actions| == |offered| == |rewards| == |log|
    && InCatalog(|weights|, offered)
    && (forall k :: 0 <= k < |log| ==> log[k].item < |weights|)
    && forall k :: 0 <= k < |log| ==> TwoBinsStepAt(weights, maxWeight, scenario, greedy, log, actions, offered, rewards, k)
  }

  /** The state of `okp_heuristic`'s loop: the run so far, the knapsack holding
      exactly what the environment admitted and within capacity, and, under
      strategy B, the counter holding the total weight offered. */
  ghost predicate TwoBinsProgress(weights: seq<int>, maxWeight: int, scenario: Option<seq<nat>>, greedy: bool,
                                  log: seq<OnlineStep>, currentWeight: int, actions: seq<int>, offered: seq<nat>,
                                  rewards: seq<int>, rejectionWeight: int)
  {
    && TwoBinsLog(weights, maxWeight, scenario, greedy, log, actions, offered, rewards)
    && currentWeight == TotalWeight(weights, Admitted(weights, log)) <= maxWeight
    && rejectionWeight == (if greedy then 0 else TotalWeight(weights, offered))
  }

  /** Appending a step leaves every earlier step of the run as it was. */
  lemma TwoBinsStepStays(weights: seq<int>, maxWeight: int, scenario: Option<seq<nat>>, greedy: bool,
                         log: seq<OnlineStep>, actions: seq<int>, offered: seq<nat>, rewards: seq<int>,
                         item: nat, s: OnlineStep, k: nat)
    requires TwoBinsLog(weights, maxWeight, scenario, greedy, log, actions, offered, rewards)
    requires item < |weights| && s.item < |weights| && k < |log|
    ensures forall j :: 0 <= j < |log + [s]| ==> (log + [s])[j].item < |weights|
    ensures InCatalog(|weights|, offered + [item])
    ensures TwoBinsStepAt(weights, maxWeight, scenario, greedy, log + [s], actions + [s.action], offered + [item],
                          rewards + [s.reward], k)
  {
    var log', offered' := log + [s], offered + [item];
    assert TwoBinsStepAt(weights, maxWeight, scenario, greedy, log, actions, offered, rewards, k);
    assert offered'[..k + 1] == offered[..k + 1] && log'[..k] == log[..k];
  }

  /** The appended step is a step of the run when its residual follows from
      the admitted items and its action from the strategy. */
  lemma TwoBinsStepAdded(weights: seq<int>, maxWeight: int, scenario: Option<seq<nat>>, greedy: bool,
                         log: seq<OnlineStep>, actions: seq<int>, offered: seq<nat>, rewards: seq<int>,
                         item: nat, s: OnlineStep)
    requires TwoBinsLog(weights, maxWeight, scenario, greedy, log, actions, offered, rewards)
    requires item < |weights| && s.item < |weights|
    requires scenario.Some? ==> |log| < |scenario.value| && item == scenario.value[|log|]
    requires scenario.None? ==> item == s.item
    requires s.residual == maxWeight - TotalWeight(weights, Admitted(weights, log))
    requires s.action == TwoBinsAction(weights, maxWeight, greedy, offered + [item], s.residual)
    ensures forall j :: 0 <= j < |log + [s]| ==> (log + [s])[j].item < |weights|
    ensures InCatalog(|weights|, offered + [item])
    ensures TwoBinsStepAt(weights, maxWeight, scenario, greedy, log + [s], actions + [s.action], offered + [item],
                          rewards + [s.reward], |log|)
  {
    var log', offered' := log + [s], offered + [item];
    assert offered'[..|log| + 1] == offered' && log'[..|log|] == log;
  }

  /** A run extended by one step whose action the strategy chose is still a run. */
  lemma TwoBinsLogExtends(weights: seq<int>, maxWeight: int, scenario: Option<seq<nat>>, greedy: bool,
                          log: seq<OnlineStep>, actions: seq<int>, offered: seq<nat>, rewards: seq<int>,
                          item: nat, s: OnlineStep)
    requires TwoBinsLog(weights, maxWeight, scenario, greedy, log, actions, offered, rewards)
    requires item < |weights| && s.item < |weights|
    requires scenario.Some? ==> |log| < |scenario.value| && item == scenario.value[|log|]
    requires scenario.None? ==> item == s.item
    requires s.residual == maxWeight - TotalWeight(weights, Admitted(weights, log))
    requires s.action == TwoBinsAction(weights, maxWeight, greedy, offered + [item], s.residual)
    ensures TwoBinsLog(weights, maxWeight, scenario, greedy, log + [s], actions + [s.action], offered + [item],
                       rewards + [s.reward])
  {
    var log', actions', offered', rewards' := log + [s], actions + [s.action], offered + [item], rewards + [s.reward];
    TwoBinsStepAdded(weights, maxWeight, scenario, greedy, log, actions, offered, rewards, item, s);
    forall k | 0 <= k < |log'|
      ensures TwoBinsStepAt(weights, maxWeight, scenario, greedy, log', actions', offered', rewards', k)
    {
      if k < |log| {
        TwoBinsStepStays(weights, maxWeight, scenario, greedy, log, actions, offered, rewards, item, s, k);
      }
    }
  }

  /** The knapsack's weight is the weight of what was admitted, and stays
      within capacity, across one more step. */
  lemma AdmittedStep(weights: seq<int>, maxWeight: int, log: seq<OnlineStep>, currentWeight: int, s: OnlineStep)
    requires (forall k :: 0 <= k < |log| ==> log[k].item < |weights|) && s.item < |weights|
    requires currentWeight == TotalWeight(weights, Admitted(weights, log)) <= maxWeight
    requires s.residual == maxWeight - currentWeight
    ensures (if s.action == 1 && weights[s.item] <= s.residual then currentWeight + weights[s.item] else currentWeight)
         == TotalWeight(weights, Admitted(weights, log + [s])) <= maxWeight
  {
    AdmittedAppend(weights, log, s);
    if s.action == 1 && weights[s.item] <= s.residual {
      TotalWeightAppend(weights, Admitted(weights, log), s.item);
    } else {
      assert Admitted(weights, log + [s]) == Admitted(weights, log);
    }
  }

  /** One pass of the loop keeps its state: the item offered is decided on by
      the strategy, the environment steps, and everything is recorded. */
  lemma TwoBinsStepKeeps(weights: seq<int>, maxWeight: int, scenario: Option<seq<nat>>, greedy: bool,
                         log: seq<OnlineStep>, currentWeight: int, actions: seq<int>, offered: seq<nat>,
                         rewards: seq<int>, rejectionWeight: int, item: nat, counter: int, s: OnlineStep)
    requires TwoBinsProgress(weights, maxWeight, scenario, greedy, log, currentWeight, actions, offered, rewards,
                             rejectionWeight)
    requires item < |weights| && s.item < |weights|
    requires scenario.Some? ==> |log| < |scenario.value| && item == scenario.value[|log|]
    requires scenario.None? ==> item == s.item
    requires s.residual == maxWeight - currentWeight
    requires counter == if greedy then rejectionWeight else rejectionWeight + weights[item]
    requires s.action == if greedy then (if weights[item] <= s.residual then 1 else 0)
                         else (if counter > maxWeight then 1 else 0)
    ensures TwoBinsProgress(weights, maxWeight, scenario, greedy, log + [s],
                            if s.action == 1 && weights[s.item] <= s.residual then currentWeight + weights[s.item]
                            else currentWeight,
                            actions + [s.action], offered + [item], rewards + [s.reward], counter)
  {
    var offered' := offered + [item];
    TotalWeightAppend(weights, offered, item);
    assert offered'[|offered'| - 1] == item;
    assert s.action == TwoBinsAction(weights, maxWeight, greedy, offered', s.residual);
    TwoBinsLogExtends(weights, maxWeight, scenario, greedy, log, actions, offered, rewards, item, s);
    AdmittedStep(weights, maxWeight, log, currentWeight, s);
  }

  /** `okp_heuristic`'s loop body after the decision: one step of the
      environment with the chosen action, the run recorded. */
  method TwoBinsSelect(env: OnlineEnv, item: nat, action: int, ghost scenario: Option<seq<nat>>, ghost greedy: bool,
                       ghost actions: seq<int>, ghost offered: seq<nat>, ghost rewards: seq<int>,
                       ghost rejectionWeight: int, ghost counter: int)
    returns (reward: int, done: bool)
    requires env.Valid() && item < |env.itemWeights|
    requires TwoBinsProgress(env.itemWeights, env.maxWeight, scenario, greedy, env.log, env.currentWeight,
                             actions, offered, rewards, rejectionWeight)
    requires scenario.Some? ==> |env.log| < |scenario.value| && item == scenario.value[|env.log|]
    requires scenario.None? ==> item == env.currentItem
    requires counter == if greedy then rejectionWeight else rejectionWeight + env.itemWeights[item]
    requires action == if greedy then (if env.itemWeights[item] <= env.maxWeight - env.currentWeight then 1 else 0)
                       else (if counter > env.maxWeight then 1 else 0)
    requires forall k :: 0 <= k < |env.log| ==> !env.log[k].done
    modifies env
    ensures env.Valid()
    ensures TwoBinsProgress(env.itemWeights, env.maxWeight, scenario, greedy, env.log, env.currentWeight,
                            actions + [action], offered + [item], rewards + [reward], counter)
    ensures env.stepCount == old(env.stepCount) + 1 && |env.log| == |old(env.log)| + 1
    ensures forall k :: 0 <= k < |env.log| ==> env.log[k].done == (done && k == |env.log| - 1)
    ensures env.stepCount >= env.stepLimit ==> done
  {
    ghost var before, weightBefore := env.log, env.currentWeight;
    reward, done := env.Step(action);
    ghost var record := env.log[|before|];
    assert env.log == before + [record];
    TwoBinsStepKeeps(env.itemWeights, env.maxWeight, scenario, greedy, before, weightBefore, actions, offered, rewards,
                     rejectionWeight, item, counter, record);
  }

  /** `okp_heuristic`. `greedy` is the run's coin flip (`r`). The variant is
      checked first, then a supplied scenario must cover the step limit; both
      failures leave the environment untouched. Otherwise the run goes until
      the first step the environment reports `done` on, and the trace holds
      one action, one offered item and one reward per step, decided by the
      chosen strategy. */
  method OkpHeuristic(env: OnlineEnv, scenario: Option<seq<nat>>, greedy: bool)
    returns (outcome: Result<OnlineTrace, PolicyError>)
    requires env.Valid()
    requires scenario.Some? ==> InCatalog(|env.itemWeights|, scenario.value)
    modifies env
    ensures env.Valid()
    ensures env.specId != OnlineId ==> outcome == Failure(WrongVariant(env.specId)) && unchanged(env)
    ensures env.specId == OnlineId && scenario.Some? && |scenario.value| < env.stepLimit ==>
              outcome == Failure(ScenarioTooShort) && unchanged(env)
    ensures outcome.Success? <==> env.specId == OnlineId && (scenario.Some? ==> |scenario.value| >= env.stepLimit)
    ensures outcome.Success? ==>
      && TwoBinsLog(env.itemWeights, env.maxWeight, scenario, greedy, env.log,
                    outcome.value.actions, outcome.value.itemsOffered, outcome.value.rewards)
      && env.currentWeight == TotalWeight(env.itemWeights, Admitted(env.itemWeights, env.log)) <= env.maxWeight
      && 0 < |env.log| == env.stepCount <= env.stepLimit
      && env.log[|env.log| - 1].done
      && forall k :: 0 <= k < |env.log| - 1 ==> !env.log[k].done
  {
    if env.specId != OnlineId {
      return Failure(WrongVariant(env.specId));
    }
    if scenario.Some? && |scenario.value| < env.stepLimit {
      return Failure(ScenarioTooShort);
    }
    env.Reset();
    var done := false;
    var actions: seq<int>, offered: seq<nat>, rewards: seq<int> := [], [], [];
    var r := greedy;
    var count, rejectionWeight := 0, 0;
    while !done
      invariant env.Valid() && env.specId == OnlineId
      invariant TwoBinsProgress(env.itemWeights, env.maxWeight, scenario, r, env.log, env.currentWeight,
                                actions, offered, rewards, rejectionWeight)
      invariant count == |env.log| == env.stepCount <= env.stepLimit
      invariant !done ==> env.stepCount < env.stepLimit
      invariant done ==> env.log != []
      invariant forall k :: 0 <= k < |env.log| ==> env.log[k].done == (done && k == |env.log| - 1)
      decreases env.stepLimit - env.stepCount
    {
      var item: nat;
      if scenario.Some? {
        item := scenario.value[count];
      } else {
        item := env.currentItem;
      }
      var action := 0;
      ghost var counterBefore := rejectionWeight;
      if r {
        // strategy A: greedy
        if env.itemWeights[item] <= env.maxWeight - env.currentWeight {
          action := 1;
        }
      } else {
        // strategy B: accept for good once the weight offered exceeds the capacity
        rejectionWeight := rejectionWeight + env.itemWeights[item];
        if rejectionWeight > env.maxWeight {
          action := 1;
        }
      }
      var reward;
      reward, done := TwoBinsSelect(env, item, action, scenario, r, actions, offered, rewards, counterBefore,
                                    rejectionWeight);
      actions := actions + [action];
      rewards := rewards + [reward];
      offered := offered + [item];
      count := count + 1;
    }
    return Success(OnlineTrace(actions, offered, rewards));
  }
}

/** What the TwoBins trace says about the run: the decision rule of each
    strategy, strategy B's one-way switch to accepting, and which runs are
    reproducible from their offered items. */
module TwoBinsProperties {
  import opened Outcomes
  import opened Ranking
  import opened Environment
  import opened Online

  /** Every action is 0 or 1; with a scenario the k-th offered item is the
      scenario's k-th; strategy A accepts exactly the items that fit the
      residual capacity; strategy B accepts exactly when the weight of all
      items offered so far, this one included, exceeds the capacity. */
  lemma TwoBinsDecisions(weights: seq<int>, maxWeight: int, scenario: Option<seq<nat>>, greedy: bool,
                         log: seq<OnlineStep>, actions: seq<int>, offered: seq<nat>, rewards: seq<int>, k: nat)
    requires TwoBinsLog(weights, maxWeight, scenario, greedy, log, actions, offered, rewards)
    requires k < |log|
    ensures actions[k] == 0 || actions[k] == 1
    ensures scenario.Some? ==> k < |scenario.value| && offered[k] == scenario.value[k]
    ensures greedy ==> (actions[k] == 1 <==> weights[offered[k]] <= log[k].residual)
    ensures !greedy ==> (actions[k] == 1 <==> TotalWeight(weights, offered[..k + 1]) > maxWeight)
  {
    assert TwoBinsStepAt(weights, maxWeight, scenario, greedy, log, actions, offered, rewards, k);
    assert offered[..k + 1][k] == offered[k];
  }

  /** Strategy B never goes back: once it accepts, it accepts at every later
      step, whenever no weight is negative. */
  lemma StrategyBRatchet(weights: seq<int>, maxWeight: int, scenario: Option<seq<nat>>,
                         log: seq<OnlineStep>, actions: seq<int>, offered: seq<nat>, rewards: seq<int>, k: nat, l: nat)
    requires forall i :: 0 <= i < |weights| ==> weights[i] >= 0
    requires TwoBinsLog(weights, maxWeight, scenario, false, log, actions, offered, rewards)
    requires k <= l < |log| && actions[k] == 1
    ensures actions[l] == 1
  {
    TwoBinsDecisions(weights, maxWeight, scenario, false, log, actions, offered, rewards, k);
    TwoBinsDecisions(weights, maxWeight, scenario, false, log, actions, offered, rewards, l);
    PrefixWeightGrows(weights, offered, k + 1, l + 1);
  }

  /** Strategy B written as the counter loop itself: `counter` is the weight
      offered before `items`, each item adds its weight, and the action is 1
      once the counter exceeds the capacity. */
  function ThresholdRun(weights: seq<int>, maxWeight: int, counter: int, items: seq<nat>): (actions: seq<int>)
    requires InCatalog(|weights|, items)
    ensures |actions| == |items|
    decreases |items|
  {
    if items == [] then []
    else
      var next := counter + weights[items[0]];
      [if next > maxWeight then 1 else 0] + ThresholdRun(weights, maxWeight, next, items[1..])
  }

  /** The counter loop's k-th action compares the starting counter plus the
      weight of the first k + 1 items with the capacity. */
  lemma {:induction false} ThresholdRunAt(weights: seq<int>, maxWeight: int, counter: int, items: seq<nat>, k: nat)
    requires InCatalog(|weights|, items) && k < |items|
    ensures ThresholdRun(weights, maxWeight, counter, items)[k]
         == if counter + TotalWeight(weights, items[..k + 1]) > maxWeight then 1 else 0
    decreases k
  {
    var next := counter + weights[items[0]];
    if k == 0 {
      assert items[..1][..0] == [];
    } else {
      ThresholdRunAt(weights, maxWeight, next, items[1..], k - 1);
      assert items[..k + 1] == [items[0]] + items[1..][..k];
      TotalWeightCons(weights, items[0], items[1..][..k]);
    }
  }

  /** Strategy B's actions are those of the counter loop started at zero over
      the items offered. */
  lemma StrategyBIsThreshold(weights: seq<int>, maxWeight: int, scenario: Option<seq<nat>>,
                             log: seq<OnlineStep>, actions: seq<int>, offered: seq<nat>, rewards: seq<int>)
    requires TwoBinsLog(weights, maxWeight, scenario, false, log, actions, offered, rewards)
    ensures actions == ThresholdRun(weights, maxWeight, 0, offered)
  {
    forall k | 0 <= k < |actions| ensures actions[k] == ThresholdRun(weights, maxWeight, 0, offered)[k] {
      TwoBinsDecisions(weights, maxWeight, scenario, false, log, actions, offered, rewards, k);
      ThresholdRunAt(weights, maxWeight, 0, offered, k);
    }
  }

  /** Strategy B read as a count of rejected weight only: `rejected` is the
      weight of the items rejected so far, an item is accepted once that
      weight exceeds the capacity, and only a rejected item's weight is
      added. */
  function RejectedRun(weights: seq<int>, maxWeight: int, rejected: int, items: seq<nat>): (actions: seq<int>)
    requires InCatalog(|weights|, items)
    ensures |actions| == |items|
    decreases |items|
  {
    if items == [] then []
    else if rejected > maxWeight then [1] + RejectedRun(weights, maxWeight, rejected, items[1..])
    else [0] + RejectedRun(weights, maxWeight, rejected + weights[items[0]], items[1..])
  }

  /** With no negative weight, the rejected-weight loop's k-th action
      compares the starting count plus the weight of the k items before it
      with the capacity: the item being decided is not counted. */
  lemma {:induction false} RejectedRunAt(weights: seq<int>, maxWeight: int, rejected: int, items: seq<nat>, k: nat)
    requires forall i :: 0 <= i < |weights| ==> weights[i] >= 0
    requires InCatalog(|weights|, items) && k < |items|
    ensures RejectedRun(weights, maxWeight, rejected, items)[k]
         == if rejected + TotalWeight(weights, items[..k]) > maxWeight then 1 else 0
    decreases k
  {
    if k == 0 {
      assert items[..0] == [];
    } else {
      var rest := items[1..];
      assert items[..k] == [items[0]] + rest[..k - 1];
      TotalWeightCons(weights, items[0], rest[..k - 1]);
      if rejected > maxWeight {
        RejectedRunAt(weights, maxWeight, rejected, rest, k - 1);
        PrefixWeightGrows(weights, rest, 0, k - 1);
        assert rest[..0] == [];
      } else {
        RejectedRunAt(weights, maxWeight, rejected + weights[items[0]], rest, k - 1);
      }
    }
  }

  /** The code's strategy B and the rejected-weight reading of it disagree by
      one step: counting only rejected weight, the item that first takes the
      weight offered over the capacity is still rejected and only the next
      one is accepted, whereas the code accepts that item itself. So the
      rejected-weight actions are the code's actions delayed by one step. */
  lemma StrategyBRejectedLags(weights: seq<int>, maxWeight: int, scenario: Option<seq<nat>>,
                              log: seq<OnlineStep>, actions: seq<int>, offered: seq<nat>, rewards: seq<int>)
    requires forall i :: 0 <= i < |weights| ==> weights[i] >= 0
    requires maxWeight >= 0
    requires TwoBinsLog(weights, maxWeight, scenario, false, log, actions, offered, rewards)
    ensures RejectedRun(weights, maxWeight, 0, offered) == ([0] + actions)[..|offered|]
  {
    StrategyBIsThreshold(weights, maxWeight, scenario, log, actions, offered, rewards);
    forall k | 0 <= k < |offered| ensures RejectedRun(weights, maxWeight, 0, offered)[k] == ([0] + actions)[k] {
      RejectedRunAt(weights, maxWeight, 0, offered, k);
      if k > 0 {
        ThresholdRunAt(weights, maxWeight, 0, offered, k - 1);
      } else {
        assert offered[..0] == [];
      }
    }
  }

  /** With a scenario, strategy B is reproducible: two runs of the same length
      over the same scenario offer the same items and take the same actions. */
  lemma ScenarioReplay(weights: seq<int>, maxWeight: int, scenario: seq<nat>,
                       log1: seq<OnlineStep>, actions1: seq<int>, offered1: seq<nat>, rewards1: seq<int>,
                       log2: seq<OnlineStep>, actions2: seq<int>, offered2: seq<nat>, rewards2: seq<int>)
    requires TwoBinsLog(weights, maxWeight, Some(scenario), false, log1, actions1, offered1, rewards1)
    requires TwoBinsLog(weights, maxWeight, Some(scenario), false, log2, actions2, offered2, rewards2)
    requires |log1| == |log2|
    ensures offered1 == offered2 && actions1 == actions2
  {
    forall k | 0 <= k < |log1| ensures offered1[k] == offered2[k] {
      TwoBinsDecisions(weights, maxWeight, Some(scenario), false, log1, actions1, offered1, rewards1, k);
      TwoBinsDecisions(weights, maxWeight, Some(scenario), false, log2, actions2, offered2, rewards2, k);
    }
    StrategyBIsThreshold(weights, maxWeight, Some(scenario), log1, actions1, offered1, rewards1);
    StrategyBIsThreshold(weights, maxWeight, Some(scenario), log2, actions2, offered2, rewards2);
  }

  /** The items offered at steps whose action was 1, in order. */
  function Accepted(offered: seq<nat>, actions: seq<int>): (items: seq<nat>)
    requires |offered| == |actions|
    ensures |items| <= |offered|
    ensures forall bound: nat :: InCatalog(bound, offered) ==> InCatalog(bound, items)
  {
    if offered == [] then []
    else
      var n := |offered| - 1;
      assert forall bound: nat :: InCatalog(bound, offered) ==> InCatalog(bound, offered[..n]);
      Accepted(offered[..n], actions[..n]) + (if actions[n] == 1 then [offered[n]] else [])
  }

  /** A step whose accepted item fit is admitted, and a rejected one is not:
      either way the admitted items keep following the accepted ones. */
  lemma AdmittedFollowsAccepted(weights: seq<int>, prefix: seq<OnlineStep>, offered: seq<nat>, actions: seq<int>,
                                s: OnlineStep)
    requires (forall k :: 0 <= k < |prefix| ==> prefix[k].item < |weights|) && s.item < |weights|
    requires |offered| == |actions| && Admitted(weights, prefix) == Accepted(offered, actions)
    requires s.action == 1 ==> weights[s.item] <= s.residual
    ensures Admitted(weights, prefix + [s]) == Accepted(offered + [s.item], actions + [s.action])
  {
    AdmittedAppend(weights, prefix, s);
    assert (offered + [s.item])[..|offered|] == offered && (actions + [s.action])[..|actions|] == actions;
  }

  /** When every step that accepted its item had room for it, the items the
      environment admitted are exactly the accepted ones, in order. */
  lemma {:induction false} AdmittedIsAccepted(weights: seq<int>, log: seq<OnlineStep>, offered: seq<nat>,
                                              actions: seq<int>, n: nat)
    requires (forall k :: 0 <= k < |log| ==> log[k].item < |weights|) && |offered| == |actions| == |log|
    requires forall k :: 0 <= k < |log| ==> log[k].item == offered[k] && log[k].action == actions[k]
    requires forall k :: 0 <= k < |log| ==> log[k].action == 1 ==> weights[log[k].item] <= log[k].residual
    requires n <= |log|
    ensures Admitted(weights, log[..n]) == Accepted(offered[..n], actions[..n])
  {
    if n > 0 {
      var m := n - 1;
      AdmittedIsAccepted(weights, log, offered, actions, m);
      AdmittedFollowsAccepted(weights, log[..m], offered[..m], actions[..m], log[m]);
      assert log[..n] == log[..m] + [log[m]];
      assert offered[..n] == offered[..m] + [offered[m]] && actions[..n] == actions[..m] + [actions[m]];
    }
  }

  /** Without a scenario, strategy A only accepts what fits, so the knapsack
      holds exactly the items it accepted, in order. */
  lemma GreedyAdmitsAccepted(weights: seq<int>, maxWeight: int, log: seq<OnlineStep>,
                             actions: seq<int>, offered: seq<nat>, rewards: seq<int>, n: nat)
    requires TwoBinsLog(weights, maxWeight, None, true, log, actions, offered, rewards)
    requires n <= |log|
    ensures Admitted(weights, log[..n]) == Accepted(offered[..n], actions[..n])
  {
    forall k | 0 <= k < |log|
      ensures log[k].item == offered[k] && log[k].action == actions[k]
      ensures log[k].action == 1 ==> weights[log[k].item] <= log[k].residual
    {
      TwoBinsDecisions(weights, maxWeight, None, true, log, actions, offered, rewards, k);
      assert TwoBinsStepAt(weights, maxWeight, None, true, log, actions, offered, rewards, k);
    }
    AdmittedIsAccepted(weights, log, offered, actions, n);
  }

  /** Without a scenario, strategy A's k-th step starts from the capacity
      left by the items it accepted before, and accepts exactly when the
      offered item fits it. */
  lemma GreedyActionAt(weights: seq<int>, maxWeight: int, log: seq<OnlineStep>,
                       actions: seq<int>, offered: seq<nat>, rewards: seq<int>, k: nat)
    requires TwoBinsLog(weights, maxWeight, None, true, log, actions, offered, rewards)
    requires k < |log|
    ensures Admitted(weights, log[..k]) == Accepted(offered[..k], actions[..k])
    ensures log[k].residual == maxWeight - TotalWeight(weights, Admitted(weights, log[..k]))
    ensures actions[k] == if weights[offered[k]] <= log[k].residual then 1 else 0
  {
    GreedyAdmitsAccepted(weights, maxWeight, log, actions, offered, rewards, k);
    TwoBinsDecisions(weights, maxWeight, None, true, log, actions, offered, rewards, k);
    assert TwoBinsStepAt(weights, maxWeight, None, true, log, actions, offered, rewards, k);
  }

  /** The capacity left before step k when the items accepted at the steps
      before it are in the knapsack. */
  function ResidualBefore(weights: seq<int>, maxWeight: int, offered: seq<nat>, actions: seq<int>, k: nat): (residual: int)
    requires InCatalog(|weights|, offered) && |actions| == |offered| && k <= |offered|
  {
    assert InCatalog(|weights|, offered[..k]);
    maxWeight - TotalWeight(weights, Accepted(offered[..k], actions[..k]))
  }

  /** Strategy A over a stream of offered items, stated on the items alone:
      each item is accepted exactly when it fits the capacity left by the
      items accepted before it. */
  ghost predicate GreedyActions(weights: seq<int>, maxWeight: int, offered: seq<nat>, actions: seq<int>)
    requires InCatalog(|weights|, offered)
  {
    && |actions| == |offered|
    && forall k :: 0 <= k < |offered| ==>
         actions[k] == if weights[offered[k]] <= ResidualBefore(weights, maxWeight, offered, actions, k) then 1 else 0
  }

  /** Without a scenario, a strategy A run's actions are strategy A over the
      items the environment offered. */
  lemma StrategyAIsGreedy(weights: seq<int>, maxWeight: int, log: seq<OnlineStep>,
                          actions: seq<int>, offered: seq<nat>, rewards: seq<int>)
    requires TwoBinsLog(weights, maxWeight, None, true, log, actions, offered, rewards)
    ensures GreedyActions(weights, maxWeight, offered, actions)
  {
    forall k | 0 <= k < |offered|
      ensures actions[k] == if weights[offered[k]] <= ResidualBefore(weights, maxWeight, offered, actions, k) then 1 else 0
    {
      GreedyActionAt(weights, maxWeight, log, actions, offered, rewards, k);
    }
  }

  /** Strategy A's actions are a function of the offered items. */
  lemma {:induction false} GreedyActionsUnique(weights: seq<int>, maxWeight: int, offered: seq<nat>,
                                               actions1: seq<int>, actions2: seq<int>, n: nat)
    requires InCatalog(|weights|, offered)
    requires GreedyActions(weights, maxWeight, offered, actions1) && GreedyActions(weights, maxWeight, offered, actions2)
    requires n <= |offered|
    ensures actions1[..n] == actions2[..n]
  {
    if n > 0 {
      var m := n - 1;
      GreedyActionsUnique(weights, maxWeight, offered, actions1, actions2, m);
      assert ResidualBefore(weights, maxWeight, offered, actions1, m)
          == ResidualBefore(weights, maxWeight, offered, actions2, m);
      assert actions1[m] == actions2[m];
      assert actions1[..n] == actions1[..m] + [actions1[m]];
      assert actions2[..n] == actions2[..m] + [actions2[m]];
    }
  }

  /** Without a scenario, a strategy A run is determined by the items the
      environment offers: two runs offering the same items take the same
      actions and start every step from the same residual capacity. */
  lemma GreedyReplay(weights: seq<int>, maxWeight: int,
                     log1: seq<OnlineStep>, actions1: seq<int>, offered: seq<nat>, rewards1: seq<int>,
                     log2: seq<OnlineStep>, actions2: seq<int>, rewards2: seq<int>)
    requires TwoBinsLog(weights, maxWeight, None, true, log1, actions1, offered, rewards1)
    requires TwoBinsLog(weights, maxWeight, None, true, log2, actions2, offered, rewards2)
    ensures actions1 == actions2
    ensures forall k :: 0 <= k < |offered| ==> log1[k].residual == log2[k].residual
  {
    StrategyAIsGreedy(weights, maxWeight, log1, actions1, offered, rewards1);
    StrategyAIsGreedy(weights, maxWeight, log2, actions2, offered, rewards2);
    GreedyActionsUnique(weights, maxWeight, offered, actions1, actions2, |offered|);
    assert actions1 == actions1[..|offered|] && actions2 == actions2[..|offered|];
    forall k | 0 <= k < |offered| ensures log1[k].residual == log2[k].residual {
      GreedyActionAt(weights, maxWeight, log1, actions1, offered, rewards1, k);
      GreedyActionAt(weights, maxWeight, log2, actions2, offered, rewards2, k);
    }
  }

  /** The first step of either diverging run below: nothing is in the
      knapsack yet, and the offered item 0 (weight 1) fits and is accepted. */
  lemma DivergingFirstStep(log: seq<OnlineStep>, actions: seq<int>)
    requires |log| == |actions| == 2 && log[0] == OnlineStep(log[0].item, 5, 1, 0, false) && actions[0] == 1
    requires log[0].item < 2 && log[1].item < 2
    ensures TwoBinsStepAt([1, 5], 5, Some([0, 0]), true, log, actions, [0, 0], [0, 0], 0)
  {
    assert log[..0] == [];
    assert [0, 0][..1] == [0];
  }

  /** The second step of a diverging run: item `first` (stepped by the
      environment) is in the knapsack, and the offered item 0 is accepted
      exactly when it still fits. */
  lemma DivergingSecondStep(log: seq<OnlineStep>, actions: seq<int>, first: nat)
    requires first < 2 && |log| == |actions| == 2 && log[0] == OnlineStep(first, 5, 1, 0, false) && log[1].item < 2
    requires log[1] == OnlineStep(log[1].item, 5 - [1, 5][first], actions[1], 0, true)
    requires actions[1] == if 1 <= 5 - [1, 5][first] then 1 else 0
    ensures TwoBinsStepAt([1, 5], 5, Some([0, 0]), true, log, actions, [0, 0], [0, 0], 1)
  {
    assert log[..1] == [log[0]] && [log[0]][..0] == [];
    assert Admitted([1, 5], log[..1]) == [first];
    assert [first][..0] == [] && TotalWeight([1, 5], [first]) == [1, 5][first];
    assert [0, 0][..2] == [0, 0];
  }

  /** Strategy A over the scenario [0, 0] with weights [1, 5] and capacity 5,
      while the environment steps item `first` and then item 0: the first
      offer is accepted, and the second exactly when item 0 still fits. */
  lemma DivergingRun(first: nat, log: seq<OnlineStep>, actions: seq<int>)
    requires first < 2 && |log| == |actions| == 2 && log[0] == OnlineStep(first, 5, 1, 0, false) && actions[0] == 1
    requires log[1] == OnlineStep(0, 5 - [1, 5][first], actions[1], 0, true)
    requires actions[1] == if 1 <= 5 - [1, 5][first] then 1 else 0
    ensures TwoBinsLog([1, 5], 5, Some([0, 0]), true, log, actions, [0, 0], [0, 0])
  {
    forall k | 0 <= k < |log| ensures TwoBinsStepAt([1, 5], 5, Some([0, 0]), true, log, actions, [0, 0], [0, 0], k) {
      if k == 0 {
        DivergingFirstStep(log, actions);
      } else {
        DivergingSecondStep(log, actions, first);
      }
    }
  }

  /** With a scenario, strategy A is not reproducible: the decision reads the
      scenario's item but the environment steps its own current item, so two
      runs over the same scenario can fill the knapsack differently and then
      decide differently on the same offered item. */
  lemma GreedyScenarioDiverges()
    ensures exists log1, actions1, log2, actions2 ::
              && TwoBinsLog([1, 5], 5, Some([0, 0]), true, log1, actions1, [0, 0], [0, 0])
              && TwoBinsLog([1, 5], 5, Some([0, 0]), true, log2, actions2, [0, 0], [0, 0])
              && actions1 != actions2
  {
    var log1 := [OnlineStep(0, 5, 1, 0, false), OnlineStep(0, 4, 1, 0, true)];
    var log2 := [OnlineStep(1, 5, 1, 0, false), OnlineStep(0, 0, 0, 0, true)];
    DivergingRun(0, log1, [1, 1]);
    DivergingRun(1, log2, [1, 0]);
    assert [1, 1] != [1, 0] by {
      assert [1, 1][1] != [1, 0][1];
    }
    assert TwoBinsLog([1, 5], 5, Some([0, 0]), true, log1, [1, 1], [0, 0], [0, 0]);
    assert TwoBinsLog([1, 5], 5, Some([0, 0]), true, log2, [1, 0], [0, 0], [0, 0]);
  }
}
