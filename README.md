# Greedy knapsack policies of or-gym, in Dafny

This project models the three heuristic policies in
`or_gym/algos/knapsack/heuristics.py`, which drive or-gym's stepwise knapsack
environments:

- `ukp_heuristic` works on the unbounded knapsack (`Knapsack-v0`).
- `bkp_heuristic` works on the bounded knapsack (`Knapsack-v1`).
- `okp_heuristic`, the "TwoBins" policy, works on the online knapsack (`Knapsack-v2`).

**Offline policies.** Both rank the catalog once by value/weight density, in non-increasing order. Then they look at the head of the ranking, step after step:

- A head that is ineligible is dropped for good, and the environment does not step. Ineligible means it does not fit the residual capacity, or, in the bounded variant, its availability limit is 0; the limit is checked first.
- An eligible head is stepped on and stays at the head.

**Online policy.** It fixes one strategy for the whole run with a coin flip:

- Strategy A accepts an offered item when it fits.
- Strategy B adds every offered item's weight to a counter and accepts once the counter exceeds the capacity.

An optional scenario supplies the offered items.

**Files and modules:**

- `outcomes.dfy` (`Outcomes`): result, error and trace types, and the variant identifiers.
- `ranking.dfy` (`Ranking`): the density ranking `vw_order`, as an insertion sort on cross-multiplied densities.
- `environment.dfy` (`Environment`): the environment as two classes.
  - `OfflineEnv` serves v0 and v1; `OnlineEnv` serves v2.
  - Each has the catalog as constants and the knapsack state as fields.
  - Each keeps a ghost log of every step. The policies' contracts use the log to talk about the whole run.
- `selection.dfy` (`Selection`): what one offline step picks: the first eligible item of the ranking. Also the greedy-run predicates over a log, and the lemmas about the shape of a run.
- `offline.dfy` (`Offline`): the two offline loops as methods over `OfflineEnv`, proved against those predicates.
- `online.dfy` (`Online`, `TwoBinsProperties`): the TwoBins loop as a method over `OnlineEnv`, and what its trace says about each strategy.
- `worked_example.dfy` (`WorkedExample`): a concrete catalog run through the ranking and the unbounded loop, and a tie in the ranking.

**How the source's behaviours appear in the model:**

- Each `assert` on the variant or on the scenario length becomes a `Failure` outcome, returned before `reset` with the environment unchanged.
- Indexing the head of an empty ranking becomes `Failure(RankingExhausted)`.
- The coin flip `r` is the parameter `greedy`.

## Model

| member | source | states |
|---|---|---|
| Ranking.VwOrder | or_gym/algos/knapsack/heuristics.py:10-11 | The ranking is a density ranking: a permutation of the item numbers 0..n-1, sorted by non-increasing value/weight. Lines 35-36 compute the same ranking. |
| Ranking.DensityIsRatio | or_gym/algos/knapsack/heuristics.py:10 | Comparing densities by cross-multiplication agrees with comparing the ratios `item_values / item_weights`. |
| Ranking.DensityTransitive | or_gym/algos/knapsack/heuristics.py:11 | With positive weights, the density order is transitive, so sorting by it is meaningful. |
| Ranking.SortByDensity | or_gym/algos/knapsack/heuristics.py:11 | The sort returns a permutation of its input identifiers. |
| Ranking.SortSorted | or_gym/algos/knapsack/heuristics.py:11 | The sort's result is ordered by non-increasing density. |
| Ranking.InsertSorted | or_gym/algos/knapsack/heuristics.py:11 | Inserting into a density-sorted ranking keeps it sorted. |
| Environment.OfflineEnv.Reset | or_gym/algos/knapsack/heuristics.py:7 | `reset` empties the knapsack, restores the availability limits, restarts the step count and starts a fresh log. |
| Environment.OfflineEnv.Step | or_gym/algos/knapsack/heuristics.py:23 | `step(i)` adds `item_weights[i]` to the weight. In v1 it also takes one unit off `item_limits[i]`. It logs the residual capacity and limits seen, the reward and the `done` flag it returns, and reports `done` once the step limit is reached. |
| Environment.OnlineEnv.Reset | or_gym/algos/knapsack/heuristics.py:67 | `reset` empties the knapsack, restarts the step count and puts some catalog item on offer. |
| Environment.OnlineEnv.Step | or_gym/algos/knapsack/heuristics.py:91 | Action 1 adds the environment's current item when it fits; any other action leaves the weight unchanged. The step is logged with that item, the residual capacity, the reward and the `done` flag it returns, and `done` is reported once the step limit is reached. |
| Environment.PrefixWeightGrows | or_gym/algos/knapsack/heuristics.py:87 | With non-negative weights, a running weight total over a longer prefix is never smaller; with positive weights it is strictly larger. |
| Selection.FirstFit | or_gym/algos/knapsack/heuristics.py:16-21 | Pruning the head until it fits stops at a position whose item fits. Every item before that position does not fit. None means no item fits. |
| Selection.FirstAvailable | or_gym/algos/knapsack/heuristics.py:42-51 | Pruning until the head is available and fits stops at such an item. Every item before it has limit 0 or does not fit. |
| Selection.FirstFitIs | or_gym/algos/knapsack/heuristics.py:16-21 | The first fitting position is p exactly when the item at p fits and none before it does. |
| Selection.FirstAvailableIs | or_gym/algos/knapsack/heuristics.py:42-51 | The first eligible position is p exactly when the item at p is available and fits, and none before it is. |
| Selection.LimitsCountSteps | or_gym/algos/knapsack/heuristics.py:53 | After a run, each item's limit equals its initial limit minus the number of times it was stepped. |
| Selection.FitPositionAdvances | or_gym/algos/knapsack/heuristics.py:18-20 | Less capacity never moves the first fitting position back. An item skipped at the larger capacity does not fit the smaller one. |
| Selection.UnboundedResiduals | or_gym/algos/knapsack/heuristics.py:18-23 | Along a v0 run the residual capacity only falls. Each step lowers it by exactly the stepped item's weight. |
| Selection.UnboundedRunShape | or_gym/algos/knapsack/heuristics.py:16-25 | The picked position never moves back. An item dropped before step k is never stepped at step k or later. A stepped item that still fits is stepped again at the next step. |
| Selection.BoundedStepLimits | or_gym/algos/knapsack/heuristics.py:43-53 | Each v1 step steps an item whose limit was not 0, and then takes one unit off that limit. |
| Selection.BoundedLimitsHold | or_gym/algos/knapsack/heuristics.py:43-46 | No limit goes below zero, so no item is stepped more often than its initial limit. |
| Selection.BoundedLimitsShrink | or_gym/algos/knapsack/heuristics.py:53 | Along a v1 run, limits only go down and stay non-negative. |
| Selection.AvailablePositionAdvances | or_gym/algos/knapsack/heuristics.py:43-50 | Fewer units or less capacity never move the first eligible position back. |
| Selection.BoundedResiduals | or_gym/algos/knapsack/heuristics.py:48-53 | Along a v1 run the residual capacity only falls. Each step lowers it by the stepped item's weight. |
| Selection.BoundedRunShape | or_gym/algos/knapsack/heuristics.py:42-55 | The picked position never moves back. An item dropped, whether exhausted or too heavy, is never stepped again. An item that is still available and fits after a step is stepped again. |
| Offline.UnboundedPruneKeeps | or_gym/algos/knapsack/heuristics.py:18-21 | Dropping a head that does not fit keeps the loop state. Every dropped item still does not fit. |
| Offline.UnboundedStepKeeps | or_gym/algos/knapsack/heuristics.py:23-25 | Stepping a head that fits extends the greedy log, the weight and the recorded trace consistently. |
| Offline.UnboundedSelect | or_gym/algos/knapsack/heuristics.py:23-25 | One step on the fitting head records that step's action and reward. The loop state carries over. From a log with no `done`, only the new step can carry `done`, and it does exactly when `step` returned it. |
| Offline.UkpHeuristic | or_gym/algos/knapsack/heuristics.py:4-27 | A wrong variant fails before `reset` and changes nothing. Otherwise there is a density ranking of the catalog, with ties in any order, such that each step was its first fitting item. The weight never exceeds capacity, the limits are untouched, and `actions`/`rewards` are exactly the items stepped and the rewards observed. On success the last step reported `done` and no earlier one did. An exhausted ranking means nothing fits, and no step reported `done`. |
| Offline.BoundedPruneKeeps | or_gym/algos/knapsack/heuristics.py:43-51 | Dropping a head that is exhausted or does not fit keeps the loop state. |
| Offline.BoundedStepKeeps | or_gym/algos/knapsack/heuristics.py:53-55 | Stepping an available, fitting head extends the log, weight, limits and trace consistently. |
| Offline.BoundedSelect | or_gym/algos/knapsack/heuristics.py:53-55 | One step on the eligible head records that step's action and reward, with one unit of the head's limit used. Only the new step can carry `done`, exactly when `step` returned it. |
| Offline.BkpHeuristic | or_gym/algos/knapsack/heuristics.py:29-57 | A wrong variant fails before `reset`. Otherwise there is a density ranking of the catalog, with ties in any order, such that each step was its first item that is available and fits. The weight stays within capacity, the limits are the initial ones less one per step, and the trace is exactly what was stepped. On success the last step reported `done` and no earlier one did. An exhausted ranking means no item is eligible, and no step reported `done`. |
| Online.TwoBinsAction | or_gym/algos/knapsack/heuristics.py:81-89 | Every action is 0 or 1. |
| Online.TwoBinsStepKeeps | or_gym/algos/knapsack/heuristics.py:76-95 | One pass of the loop keeps its state: the run so far, the weight of what was admitted, and, for strategy B, the counter equal to the weight of all items offered so far. |
| Online.TwoBinsSelect | or_gym/algos/knapsack/heuristics.py:91-94 | One step with the chosen action appends exactly one action, one offered item and one reward. Only the new step can carry `done`, exactly when `step` returned it. |
| Online.OkpHeuristic | or_gym/algos/knapsack/heuristics.py:59-97 | A wrong variant, or a scenario shorter than the step limit, fails before `reset` and changes nothing; it succeeds exactly otherwise. On success, `actions`, `items_offered` and `rewards` have one entry per step, each action follows the chosen strategy, the knapsack holds exactly what was admitted and is within capacity, and the number of steps is at most the step limit. The last step reported `done` and no earlier one did. |
| TwoBinsProperties.TwoBinsDecisions | or_gym/algos/knapsack/heuristics.py:77-89 | Each action is 0 or 1. With a scenario, `items_offered[k] == scenario[k]`. Strategy A accepts if and only if the item fits the residual. Strategy B accepts if and only if the weight offered so far, this item included, exceeds `max_weight`. |
| TwoBinsProperties.StrategyBRatchet | or_gym/algos/knapsack/heuristics.py:86-89 | Under strategy B, with no negative weight, once an action is 1, every later action is 1. |
| TwoBinsProperties.ThresholdRunAt | or_gym/algos/knapsack/heuristics.py:87-89 | The counter loop's k-th action compares the starting counter plus the weight of the first k+1 items with the capacity. |
| TwoBinsProperties.StrategyBIsThreshold | or_gym/algos/knapsack/heuristics.py:86-89 | Strategy B's actions equal those of the counter loop `rejection_weight` started at 0 (line 75) over the offered items. |
| TwoBinsProperties.RejectedRunAt | or_gym/algos/knapsack/heuristics.py:86-89 | With no negative weight, a counter of rejected weight only, which accepts once it exceeds the capacity, decides item k on the weight of the k items before it. The item being decided is not counted. |
| TwoBinsProperties.StrategyBRejectedLags | or_gym/algos/knapsack/heuristics.py:86-89 | With no negative weight and a non-negative capacity, the rejected-weight counter's actions are strategy B's actions delayed by one step, with a 0 in front. |
| TwoBinsProperties.ScenarioReplay | or_gym/algos/knapsack/heuristics.py:77-78 | With a scenario, two strategy-B runs of equal length offer the same items and take the same actions. |
| TwoBinsProperties.AdmittedFollowsAccepted | or_gym/algos/knapsack/heuristics.py:84-85 | A step whose accepted item fits admits it, and a rejected step admits nothing. |
| TwoBinsProperties.AdmittedIsAccepted | or_gym/algos/knapsack/heuristics.py:82-91 | In an online run where the item each step admits is the item offered (as without a scenario) and every accepted item had room, the environment admitted exactly the accepted items, in order. |
| TwoBinsProperties.GreedyAdmitsAccepted | or_gym/algos/knapsack/heuristics.py:82-85 | Without a scenario, strategy A's knapsack holds exactly the items it accepted, in order. |
| TwoBinsProperties.GreedyActionAt | or_gym/algos/knapsack/heuristics.py:82-85 | Without a scenario, each strategy-A step starts from the capacity left by the items accepted before it, and accepts exactly when the offered item fits it. |
| TwoBinsProperties.StrategyAIsGreedy | or_gym/algos/knapsack/heuristics.py:82-85 | Without a scenario, strategy A's actions are given by the offered items alone. Each item is accepted iff it fits what the earlier accepted items left. |
| TwoBinsProperties.GreedyActionsUnique | or_gym/algos/knapsack/heuristics.py:82-85 | That description of strategy A fixes the actions: two action sequences meeting it over the same items are equal. |
| TwoBinsProperties.GreedyReplay | or_gym/algos/knapsack/heuristics.py:79-85 | Without a scenario, two strategy-A runs offered the same items take the same actions from the same residual capacities. |
| TwoBinsProperties.DivergingRun | or_gym/algos/knapsack/heuristics.py:78-91 | With a scenario the decision reads the scenario's item, but `step` adds the environment's own item. This lemma describes such a run concretely. |
| TwoBinsProperties.GreedyScenarioDiverges | or_gym/algos/knapsack/heuristics.py:78-91 | With a scenario, strategy A is not reproducible: two valid runs over the same scenario can take different actions. |
| WorkedExample.ExampleRanking | or_gym/algos/knapsack/heuristics.py:10-11 | For values 8, 5, 3 and weights 4, 5, 2 the ranking is A, C, B. |
| WorkedExample.ExampleTie | or_gym/algos/knapsack/heuristics.py:10-11 | For two equally dense items, `VwOrder` puts item 1 first, and both orders are density rankings. |
| WorkedExample.ExampleOnlyRanking | or_gym/algos/knapsack/heuristics.py:10-11 | The example has no ties, so A, C, B is its only density ranking, whichever order the sort leaves ties in. |
| WorkedExample.ExampleUnboundedRun | or_gym/algos/knapsack/heuristics.py:15-25 | With capacity 10, any greedy run over a density ranking of the example, which is what `UkpHeuristic` promises, steps A, A, C. After those three steps no item fits, so no further step is possible. |

## Left out

- The knapsack environments' own source is not part of this model. The environment's contract is the minimum the policies rely on: the weight update, the v1 limit update, the item on offer, and a step budget.
- OfflineEnv.Step, OnlineEnv.Step: the reward rule is not modelled. Neither is an earlier `done` than the step limit: `done` is left free before the budget is spent. The item the online environment offers next is left free as well.
- `np.random.choice` for the strategy flag is the parameter `greedy`, so the coin flip is outside the model.
- VwOrder: float division and `np.argsort` are replaced by integer cross-multiplication. `VwOrder` puts the higher identifier first among equally dense items, which is where reversing a stable ascending sort leaves them. numpy's default sort does not promise stability, so the policies' contracts do not use `VwOrder`'s tie order: they hold for some density ranking, with ties in any order.
- OfflineEnv: requires positive weights, because the ranking divides values by weights. OnlineEnv allows any non-negative weight, since `okp_heuristic` never divides.
- Item identifiers are the positions 0..n-1 of the catalog, which is what `item_numbers` holds.
- UkpHeuristic, BkpHeuristic: an empty ranking raises `IndexError` in the source. Here it is `Failure(RankingExhausted)`, and the environment keeps the steps already taken.
- OkpHeuristic: the scenario is a typed sequence, so the `Iterable` check has no counterpart.
- OkpHeuristic: requires the scenario's items to be catalog identifiers. The source would raise `IndexError` on an item out of range, or use numpy's wrap-around on a negative one.
- OkpHeuristic: without a scenario the model reads the environment's current item. The source's `copy.copy` raises `NameError`, because `copy` is never imported.
- OkpHeuristic: `items_taken` is never used by the source and is not modelled.
- OkpHeuristic: the loop counter `count` equals the number of steps. This is kept as a loop invariant, not a postcondition, because `count` is not returned.
- The source's own `from collections import Iterable` import issue is outside the model.

Where a description of these policies and the code differ, the model follows the code:

- The unbounded run on the worked example (capacity 10; A: weight 4, value 8; B: weight 5, value 5; C: weight 2, value 3) is sometimes given as A, C. The code keeps A at the head after stepping it, so it steps A, A, C (`WorkedExample.ExampleUnboundedRun`).
- Strategy B is described as adding the weight of rejected items. The code adds every offered item's weight, the item being decided included, before it compares (`TwoBinsProperties.StrategyBIsThreshold`). So the item that first takes the total over the capacity is accepted. With a counter of rejected weight that leaves the item being decided out, that item would be rejected and acceptance would start one step later (`TwoBinsProperties.StrategyBRejectedLags`).
- Runs with a fixed scenario and a fixed strategy are described as reproducible, in actions and in rewards. The code guarantees only equal offered items and actions, and only for strategy B (`TwoBinsProperties.ScenarioReplay`). Rewards can differ even then: `step(1)` admits the environment's own current item, not the scenario's. Under strategy A, `step` adds the environment's own item while the decision reads the scenario's, so the actions can differ (`TwoBinsProperties.GreedyScenarioDiverges`). Without a scenario, strategy A is determined by the items offered (`TwoBinsProperties.GreedyReplay`).
- Ties in the ranking are described as broken by catalog order. The code reverses an argsort, so a stable sort would put the later catalog item first, and numpy's default sort promises no order at all (`WorkedExample.ExampleTie`).
