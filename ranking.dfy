/** Value-density ranking of the item catalog: identifiers ordered by
    non-increasing value/weight, compared by cross-multiplication. */
module Ranking {

  /** A catalog the ranking can be computed for: one value per weight, every weight positive. */
  ghost predicate ValidCatalog(values: seq<int>, weights: seq<int>) {
    |values| == |weights| && forall i :: 0 <= i < |weights| ==> weights[i] > 0
  }

  /** Item `a` is at least as dense as item `b`: values[a]/weights[a] >= values[b]/weights[b]. */
  predicate AtLeastAsDense(values: seq<int>, weights: seq<int>, a: nat, b: nat)
    requires a < |values| && b < |values| && |values| == |weights|
  {
    values[a] * weights[b] >= values[b] * weights[a]
  }

  ghost predicate InCatalog(n: nat, ids: seq<nat>) {
    forall k :: 0 <= k < |ids| ==> ids[k] < n
  }

  /** Every earlier identifier is at least as dense as every later one. */
  ghost predicate DensitySorted(values: seq<int>, weights: seq<int>, ids: seq<nat>)
    requires |values| == |weights| && InCatalog(|values|, ids)
  {
    forall p, q :: 0 <= p < q < |ids| ==> AtLeastAsDense(values, weights, ids[p], ids[q])
  }

  /** The catalog's identifiers 0 .. n-1, in catalog order. */
  function ItemNumbers(n: nat): (ids: seq<nat>)
  {
    seq(n, k => k)
  }

  /** Cross-multiplication agrees with comparing the value/weight ratios themselves. */
  lemma DensityIsRatio(values: seq<int>, weights: seq<int>, a: nat, b: nat)
    requires ValidCatalog(values, weights) && a < |values| && b < |values|
    ensures AtLeastAsDense(values, weights, a, b)
        <==> values[a] as real / weights[a] as real >= values[b] as real / weights[b] as real
  {
    var va, wa, vb, wb := values[a] as real, weights[a] as real, values[b] as real, weights[b] as real;
    var ra, rb := va / wa, vb / wb;
    assert ra * wa == va;
    assert rb * wb == vb;
    assert va * wb - vb * wa == (ra - rb) * (wa * wb);
    assert wa * wb > 0.0;
    assert AtLeastAsDense(values, weights, a, b) <==> va * wb >= vb * wa;
  }

  /** With positive weights the density comparison is transitive. */
  lemma DensityTransitive(values: seq<int>, weights: seq<int>, a: nat, b: nat, c: nat)
    requires ValidCatalog(values, weights) && a < |values| && b < |values| && c < |values|
    requires AtLeastAsDense(values, weights, a, b) && AtLeastAsDense(values, weights, b, c)
    ensures AtLeastAsDense(values, weights, a, c)
  {
    var va, vb, vc := values[a], values[b], values[c];
    var wa, wb, wc := weights[a], weights[b], weights[c];
    assert va * wb * wc >= vb * wa * wc by {
      MultiplyPositive(va * wb, vb * wa, wc);
    }
    assert vb * wc * wa >= vc * wb * wa by {
      MultiplyPositive(vb * wc, vc * wb, wa);
    }
    assert wb * (va * wc - vc * wa) >= 0;
    if va * wc < vc * wa {
      MultiplyPositive(vc * wa, va * wc, wb);
    }
  }

  lemma MultiplyPositive(x: int, y: int, k: int)
    requires k > 0 && x >= y
    ensures x * k >= y * k
  {
  }

  /** Places `x` in front of the first identifier it is strictly denser than,
      so among equally dense items the one inserted later comes later. */
  function Insert(values: seq<int>, weights: seq<int>, x: nat, ids: seq<nat>): (r: seq<nat>)
    requires |values| == |weights| && x < |values| && InCatalog(|values|, ids)
    ensures multiset(r) == multiset(ids) + multiset{x}
    ensures InCatalog(|values|, r)
  {
    if ids == [] then [x]
    else if !AtLeastAsDense(values, weights, ids[0], x) then [x] + ids
    else
      assert ids == [ids[0]] + ids[1..];
      [ids[0]] + Insert(values, weights, x, ids[1..])
  }

  /** Insertion sort of `ids` by non-increasing density; a permutation of `ids`. */
  function SortByDensity(values: seq<int>, weights: seq<int>, ids: seq<nat>): (r: seq<nat>)
    requires |values| == |weights| && InCatalog(|values|, ids)
    ensures multiset(r) == multiset(ids)
    ensures InCatalog(|values|, r)
  {
    if ids == [] then []
    else
      assert ids == [ids[0]] + ids[1..];
      Insert(values, weights, ids[0], SortByDensity(values, weights, ids[1..]))
  }

  lemma {:induction false} InsertSorted(values: seq<int>, weights: seq<int>, x: nat, ids: seq<nat>)
    requires ValidCatalog(values, weights) && x < |values| && InCatalog(|values|, ids)
    requires DensitySorted(values, weights, ids)
    ensures InCatalog(|values|, Insert(values, weights, x, ids))
    ensures DensitySorted(values, weights, Insert(values, weights, x, ids))
  {
    var r := Insert(values, weights, x, ids);
    if ids == [] {
    } else if !AtLeastAsDense(values, weights, ids[0], x) {
      forall q | 0 < q < |r| ensures AtLeastAsDense(values, weights, r[0], r[q]) {
        if q > 1 {
          DensityTransitive(values, weights, x, ids[0], ids[q - 1]);
        }
      }
    } else {
      var tail := Insert(values, weights, x, ids[1..]);
      InsertSorted(values, weights, x, ids[1..]);
      forall q | 0 < q < |r| ensures AtLeastAsDense(values, weights, ids[0], r[q]) {
        // r[q] is either x, which ids[0] beats, or a later element of ids
        var y := tail[q - 1];
        assert y in multiset(ids[1..]) + multiset{x} by {
          assert y in tail;
        }
        if y != x {
          assert y in ids[1..];
          var i :| 0 <= i < |ids[1..]| && ids[1..][i] == y;
          assert ids[i + 1] == y;
        }
      }
    }
  }

  lemma {:induction false} SortSorted(values: seq<int>, weights: seq<int>, ids: seq<nat>)
    requires ValidCatalog(values, weights) && InCatalog(|values|, ids)
    ensures InCatalog(|values|, SortByDensity(values, weights, ids))
    ensures DensitySorted(values, weights, SortByDensity(values, weights, ids))
  {
    if ids != [] {
      SortSorted(values, weights, ids[1..]);
      InsertSorted(values, weights, ids[0], SortByDensity(values, weights, ids[1..]));
    }
  }

  /** A ranking of the catalog: every identifier 0 .. n-1 exactly once, in
      non-increasing order of value/weight ratio. Equally dense items may
      come in any order. */
  ghost predicate DensityRanking(values: seq<int>, weights: seq<int>, rank: seq<nat>) {
    && |values| == |weights|
    && multiset(rank) == multiset(ItemNumbers(|values|))
    && InCatalog(|values|, rank)
    && DensitySorted(values, weights, rank)
  }

  /** `vw_order`: a ranking of the catalog by non-increasing value/weight
      ratio. Among equally dense items the higher identifier comes first,
      which is where reversing a stable ascending sort leaves them. */
  function VwOrder(values: seq<int>, weights: seq<int>): (r: seq<nat>)
    requires ValidCatalog(values, weights)
    ensures |r| == |values|
    ensures DensityRanking(values, weights, r)
  {
    var ids := ItemNumbers(|values|);
    SortSorted(values, weights, ids);
    assert |SortByDensity(values, weights, ids)| == |multiset(ids)|;
    SortByDensity(values, weights, ids)
  }
}
