/**
 * The split factors both price transforms share (functions/data_processor.py
 * lines 79-82 and 226-229): a per-row `adjust_factor` and its shifted running
 * product `cum_adj_factor`, computed over the rows newest first.
 */
module Factors {
  import opened Frame

  /**
   * A row's `adjust_factor`: the split ratio, except that a ratio of 0 means
   * "no split" and gives 1. It is never 0, and it is 1 exactly when no split
   * happened (ratio 0 or 1).
   */
  function AdjustFactor(split: real): (f: real)
    ensures f != 0.0
    ensures f == 1.0 <==> split == 0.0 || split == 1.0
    ensures split != 0.0 ==> f == split
  {
    if split == 0.0 then 1.0 else split
  }

  /** `adjust_factor` of each row. */
  function AdjustFactors(splits: seq<real>): (r: seq<real>)
    ensures |r| == |splits|
    ensures forall i :: 0 <= i < |splits| ==> r[i] == AdjustFactor(splits[i])
  {
    seq(|splits|, i requires 0 <= i < |splits| => AdjustFactor(splits[i]))
  }

  /**
   * `cum_adj_factor` over rows in the frame's current (newest-first) order:
   * `cumprod().shift(1).fillna(1)`. The first row gets 1 and no entry is 0.
   */
  function CumAdjFactors(splits: seq<real>): (r: seq<real>)
    ensures |r| == |splits|
    ensures |splits| > 0 ==> r[0] == 1.0
    ensures forall i :: 0 <= i < |splits| ==> r[i] != 0.0
  {
    var fs := AdjustFactors(splits);
    var r := Shift(CumProd(fs), 1.0);
    CumProdIsProd(fs);
    forall i | 0 <= i < |splits| ensures r[i] != 0.0 {
      if i > 0 {
        ProdNonZero(fs[..i]);
      }
    }
    r
  }

  /** Row `i` gets the product of the adjust factors of the rows before it, rows `0..i-1`. */
  lemma CumAdjFactorsIsProd(splits: seq<real>)
    ensures forall i :: 0 <= i < |splits| ==> CumAdjFactors(splits)[i] == Prod(AdjustFactors(splits)[..i])
  {
    var fs := AdjustFactors(splits);
    CumProdIsProd(fs);
    assert fs[..0] == [];
  }

  /** The worked example: split ratios 1, 1, 2, 1 (newest first) give factors 1, 1, 1, 2. */
  lemma CumAdjFactorsExample()
    ensures CumAdjFactors([1.0, 1.0, 2.0, 1.0]) == [1.0, 1.0, 1.0, 2.0]
  {
    var fs := AdjustFactors([1.0, 1.0, 2.0, 1.0]);
    CumAdjFactorsIsProd([1.0, 1.0, 2.0, 1.0]);
    assert fs == [1.0, 1.0, 2.0, 1.0];
    assert fs[..1] == [1.0] && fs[..2] == [1.0, 1.0] && fs[..3] == [1.0, 1.0, 2.0];
    assert [1.0, 1.0, 2.0][1..] == [1.0, 2.0] && [1.0, 2.0][1..] == [2.0];
    assert [1.0, 1.0][1..] == [1.0] && [1.0][1..] == [] && [2.0][1..] == [];
  }

  /** With no split anywhere (every ratio 0 or 1) every cumulative factor is 1. */
  lemma {:induction false} NoSplitsNoFactor(splits: seq<real>)
    requires forall k :: 0 <= k < |splits| ==> splits[k] == 0.0 || splits[k] == 1.0
    ensures forall i :: 0 <= i < |splits| ==> CumAdjFactors(splits)[i] == 1.0
  {
    var fs := AdjustFactors(splits);
    CumAdjFactorsIsProd(splits);
    forall i | 0 <= i < |splits| ensures Prod(fs[..i]) == 1.0 {
      ProdOfOnes(fs[..i]);
    }
  }
}
