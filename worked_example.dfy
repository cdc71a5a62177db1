/** A concrete catalog run through the unbounded greedy loop: capacity 10,
    items A (value 8, weight 4), B (value 5, weight 5) and C (value 3,
    weight 2), numbered 0, 1 and 2. */
module WorkedExample {
  import opened Outcomes
  import opened Ranking
  import opened Environment
  import opened Selection

  /** The ranking is A, C, B (densities 2, 1.5 and 1). */
  lemma ExampleRanking()
    ensures VwOrder([8, 5, 3], [4, 5, 2]) == [0, 2, 1]
  {
    assert ItemNumbers(3) == [0, 1, 2];
    ExampleSort();
  }

  /** Insertion sort of A, B, C by density: C goes in first, B (less dense)
      after it, and A (denser) in front. */
  lemma ExampleSort()
    ensures SortByDensity([8, 5, 3], [4, 5, 2], [0, 1, 2]) == [0, 2, 1]
  {
    var ids: seq<nat> := [0, 1, 2];
    assert ids[1..] == [1, 2];
    ExampleSortBC();
    ExampleInsertA();
  }

  lemma ExampleSortBC()
    ensures SortByDensity([8, 5, 3], [4, 5, 2], [1, 2]) == [2, 1]
  {
    var ids: seq<nat> := [1, 2];
    assert ids[1..] == [2];
    ExampleSortC();
    ExampleInsertB();
  }

  lemma ExampleSortC()
    ensures SortByDensity([8, 5, 3], [4, 5, 2], [2]) == [2]
  {
    var ids: seq<nat> := [2];
    assert ids[1..] == [];
  }

  lemma ExampleInsertB()
    ensures Insert([8, 5, 3], [4, 5, 2], 1, [2]) == [2, 1]
  {
    assert AtLeastAsDense([8, 5, 3], [4, 5, 2], 2, 1);
    assert [2][1..] == [];
  }

  lemma ExampleInsertA()
    ensures Insert([8, 5, 3], [4, 5, 2], 0, [2, 1]) == [0, 2, 1]
  {
    assert !AtLeastAsDense([8, 5, 3], [4, 5, 2], 2, 0);
  }

  /** Two equally dense items (values 2, 2, weights 1, 1): `VwOrder` puts the
      higher identifier first, and the catalog order is a density ranking as
      well, so the policies' contracts, which only ask for a density ranking,
      leave the order of the tie open. */
  lemma ExampleTie()
    ensures VwOrder([2, 2], [1, 1]) == [1, 0]
    ensures DensityRanking([2, 2], [1, 1], [0, 1]) && DensityRanking([2, 2], [1, 1], [1, 0])
  {
    assert ItemNumbers(2) == [0, 1];
    ExampleTieSort();
    ExampleTieRanking([0, 1]);
    ExampleTieRanking([1, 0]);
  }

  lemma ExampleTieSort()
    ensures SortByDensity([2, 2], [1, 1], [0, 1]) == [1, 0]
  {
    var ids: seq<nat> := [0, 1];
    assert ids[1..] == [1] && [1][1..] == [];
    assert AtLeastAsDense([2, 2], [1, 1], 1, 0);
  }

  /** Either order of the two equally dense items is a density ranking. */
  lemma ExampleTieRanking(rank: seq<nat>)
    requires rank == [0, 1] || rank == [1, 0]
    ensures DensityRanking([2, 2], [1, 1], rank)
  {
    assert ItemNumbers(2) == [0, 1];
    assert multiset(rank) == multiset{0, 1};
  }

  /** The example has no ties, so A, C, B is its only density ranking. */
  lemma ExampleOnlyRanking(rank: seq<nat>)
    requires DensityRanking([8, 5, 3], [4, 5, 2], rank)
    ensures rank == [0, 2, 1]
  {
    var values, weights := [8, 5, 3], [4, 5, 2];
    assert ItemNumbers(3) == [0, 1, 2];
    assert |rank| == |multiset(rank)| == 3;
    assert 0 in multiset(rank) && 1 in multiset(rank) && 2 in multiset(rank);
    assert 0 in rank && 1 in rank && 2 in rank;
    assert forall k :: 0 <= k < 3 ==> rank[k] < 3;
    assert !AtLeastAsDense(values, weights, 1, 0) && !AtLeastAsDense(values, weights, 1, 2);
    assert !AtLeastAsDense(values, weights, 2, 0);
  }

  /** The unbounded loop over the example's ranking (the one `UkpHeuristic`
      promises) takes A, then A again (it stays at the head while it fits),
      then C once only 2 is left; after those three steps nothing in the
      ranking fits, so no greedy step can follow them. */
  lemma ExampleUnboundedRun(rank: seq<nat>, log: seq<OfflineStep>)
    requires DensityRanking([8, 5, 3], [4, 5, 2], rank)
    requires UnboundedGreedyLog(rank, [4, 5, 2], 10, log)
    ensures |log| <= 3 ==> Stepped(log) == [0, 0, 2][..|log|]
    ensures |log| >= 3 ==> Stepped(log)[..3] == [0, 0, 2]
    ensures |log| >= 3 ==> FirstFit(rank, [4, 5, 2], 10 - TotalWeight([4, 5, 2], Stepped(log)[..3])) == None
  {
    ExampleOnlyRanking(rank);
    var weights := [4, 5, 2];
    var s := Stepped(log);
    ExampleWeights();
    if |log| > 0 {
      assert s[..0] == [];
      ExampleStep(log, 0, [], 10, 0);
    }
    if |log| > 1 {
      assert s[..1] == [0];
      ExampleStep(log, 1, [0], 6, 0);
    }
    if |log| > 2 {
      assert s[..2] == [0, 0];
      ExampleStep(log, 2, [0, 0], 2, 2);
      assert s[..3] == [0, 0, 2];
      FirstFitIs(rank, weights, 0, 3);
    }
    if |log| <= 3 {
      assert s == s[..|log|];
    }
  }

  /** Step k of a greedy run over the example, from the items stepped before it. */
  lemma ExampleStep(log: seq<OfflineStep>, k: nat, before: seq<nat>, residual: int, item: nat)
    requires UnboundedGreedyLog([0, 2, 1], [4, 5, 2], 10, log) && k < |log|
    requires Stepped(log)[..k] == before && InCatalog(3, before)
    requires residual == 10 - TotalWeight([4, 5, 2], before)
    requires (residual == 10 && item == 0) || (residual == 6 && item == 0) || (residual == 2 && item == 2)
    ensures log[k].item == item
  {
    var rank, weights := [0, 2, 1], [4, 5, 2];
    assert UnboundedStepAt(rank, weights, 10, log, k);
    if item == 0 {
      FirstFitIs(rank, weights, residual, 0);
    } else {
      FirstFitIs(rank, weights, residual, 1);
    }
  }

  /** Weights of the example's prefixes of A, A, C. */
  lemma ExampleWeights()
    ensures TotalWeight([4, 5, 2], []) == 0
    ensures TotalWeight([4, 5, 2], [0]) == 4
    ensures TotalWeight([4, 5, 2], [0, 0]) == 8
    ensures TotalWeight([4, 5, 2], [0, 0, 2]) == 10
  {
    assert [0][..0] == [] && [0, 0][..1] == [0] && [0, 0, 2][..2] == [0, 0];
  }
}
