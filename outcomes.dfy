/** Result types shared by the three knapsack policies. */
module Outcomes {

  datatype Option<+T> = None | Some(value: T)

  datatype Result<+R, +E> = Success(value: R) | Failure(error: E)

  /** Identifiers of the three environment variants a policy checks before it starts. */
  const UnboundedId: string := "Knapsack-v0"
  const BoundedId: string := "Knapsack-v1"
  const OnlineId: string := "Knapsack-v2"

  /** The ways a policy run can fail. */
  datatype PolicyError =
    | WrongVariant(received: string)  // the environment is not the variant the policy is for
    | RankingExhausted                // every item was pruned before the environment signalled done
    | ScenarioTooShort                // the online scenario is shorter than the step limit

  /** What the offline policies return: the items stepped and the rewards observed. */
  datatype OfflineTrace = OfflineTrace(actions: seq<nat>, rewards: seq<int>)

  /** What the online policy returns: the accept/reject actions, the items offered and the rewards. */
  datatype OnlineTrace = OnlineTrace(actions: seq<int>, itemsOffered: seq<nat>, rewards: seq<int>)
}
