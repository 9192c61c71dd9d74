/**
 * The dividend half of `adjust_price` (functions/data_processor.py lines
 * 234-237), on a frame already sorted newest first: each row's close is
 * scaled by the running product of the retention rates the later dividends
 * imply.
 */
module Dividends {
  import opened Frame

  const DividendsColumn := "dividends"
  const CloseColumn := "close"
  const FwdDivColumn := "fwd_div"
  const RetentionColumn := "retention_rate"
  const AccumRetentionColumn := "accum_retention"
  const AdjCloseColumn := "adj_close"

  /** The four columns the dividend adjustment adds. */
  predicate IsDividendColumn(c: string) {
    c == FwdDivColumn || c == RetentionColumn || c == AccumRetentionColumn || c == AdjCloseColumn
  }

  /**
   * What the dividend adjustment reads: a `dividends` and a `close` column on
   * every row, and no zero close (a zero close would make pandas divide by
   * zero).
   */
  predicate Priced(s: seq<Row>) {
    && HasColumn(s, DividendsColumn)
    && HasColumn(s, CloseColumn)
    && forall i :: 0 <= i < |s| ==> s[i].values[CloseColumn] != 0.0
  }

  /**
   * The retention rate of row `i` read straight off the input: the newest
   * row keeps everything, every other row loses the dividend paid on the
   * next newer row as a fraction of its own close.
   */
  function RetentionAt(s: seq<Row>, i: int): real
    requires Priced(s) && 0 <= i < |s|
  {
    if i == 0 then 1.0 else 1.0 - Over(s[i - 1].values[DividendsColumn], s[i].values[CloseColumn])
  }

  /** The retention rate of every row, newest first. */
  function Retentions(s: seq<Row>): (r: seq<real>)
    requires Priced(s)
    ensures |r| == |s|
    ensures forall i :: 0 <= i < |s| ==> r[i] == RetentionAt(s, i)
  {
    seq(|s|, i requires 0 <= i < |s| => RetentionAt(s, i))
  }

  /**
   * Lines 234-237: `fwd_div` is `dividends` shifted down one row with 0 on
   * the first, `retention_rate` is `1 - fwd_div / close`, `accum_retention`
   * its running product (not shifted), and `adj_close` is
   * `accum_retention * close`.
   */
  function DividendStage(s: seq<Row>): (r: seq<Row>)
    requires Priced(s)
    ensures |r| == |s|
    ensures forall i :: 0 <= i < |s| ==> r[i].ts == s[i].ts
  {
    var fwd := Shift(Column(s, DividendsColumn), 0.0);
    var retention := Retentions(s);
    var accum := CumProd(retention);
    seq(|s|, i requires 0 <= i < |s| =>
      s[i].(values := s[i].values
              [FwdDivColumn := fwd[i]]
              [RetentionColumn := retention[i]]
              [AccumRetentionColumn := accum[i]]
              [AdjCloseColumn := Times(accum[i], s[i].values[CloseColumn])]))
  }

  /** The dividend stage adds exactly its four columns to each row. */
  lemma DividendRowKeys(s: seq<Row>, i: int)
    requires Priced(s) && 0 <= i < |s|
    ensures DividendStage(s)[i].values.Keys
              == s[i].values.Keys + {FwdDivColumn, RetentionColumn, AccumRetentionColumn, AdjCloseColumn}
  {
  }

  /** Every column the dividend stage does not add keeps its value. */
  lemma DividendRowKeeps(s: seq<Row>, i: int, c: string)
    requires Priced(s) && 0 <= i < |s|
    requires c in s[i].values && !IsDividendColumn(c)
    ensures DividendStage(s)[i].values[c] == s[i].values[c]
  {
  }

  /**
   * `fwd_div` of row `i` is the dividend of the next newer row (0 on the
   * newest row), and the retention rate is the one `RetentionAt` reads off
   * the input.
   */
  lemma DividendRowRetention(s: seq<Row>, i: int)
    requires Priced(s) && 0 <= i < |s|
    ensures var r := DividendStage(s)[i].values;
      && r[FwdDivColumn] == (if i == 0 then 0.0 else s[i - 1].values[DividendsColumn])
      && r[RetentionColumn] == 1.0 - Over(r[FwdDivColumn], s[i].values[CloseColumn])
      && r[RetentionColumn] == RetentionAt(s, i)
  {
  }

  /**
   * `accum_retention` of row `i` is the product of the retention rates of
   * rows `0..i`, row `i` included, and `adj_close` is the close scaled by it.
   */
  lemma DividendRowAccum(s: seq<Row>, i: int)
    requires Priced(s) && 0 <= i < |s|
    ensures var r := DividendStage(s)[i].values;
      && r[AccumRetentionColumn] == Prod(Retentions(s)[..i + 1])
      && r[AdjCloseColumn] == Times(r[AccumRetentionColumn], s[i].values[CloseColumn])
  {
    StageAccum(s, i);
    CumProdAt(Retentions(s), i);
  }

  /** Row i of the stage holds the running product of retention rates at i, and the close times it. */
  lemma StageAccum(s: seq<Row>, i: int)
    requires Priced(s) && 0 <= i < |s|
    ensures DividendStage(s)[i].values[AccumRetentionColumn] == CumProd(Retentions(s))[i]
    ensures DividendStage(s)[i].values[AdjCloseColumn] == Times(CumProd(Retentions(s))[i], s[i].values[CloseColumn])
  {
  }

  /**
   * The accumulated retention, step by step: 1 on the newest row, and each
   * older row multiplies its own retention rate onto that of the row before.
   */
  lemma {:induction false} AccumRetentionStep(s: seq<Row>, i: int)
    requires Priced(s) && 0 <= i < |s|
    ensures i == 0 ==> DividendStage(s)[i].values[AccumRetentionColumn] == 1.0
    ensures i > 0 ==> DividendStage(s)[i].values[AccumRetentionColumn]
                      == Times(DividendStage(s)[i - 1].values[AccumRetentionColumn], RetentionAt(s, i))
  {
    AccumAt(s, i);
    if i == 0 {
      ProdPrefixOne(Retentions(s));
    } else {
      AccumAt(s, i - 1);
      ProdPrefixStep(Retentions(s), i);
    }
  }

  /** The accumulated retention of row i is the product of the first i + 1 retention rates. */
  lemma AccumAt(s: seq<Row>, i: int)
    requires Priced(s) && 0 <= i < |s|
    ensures DividendStage(s)[i].values[AccumRetentionColumn] == Prod(Retentions(s)[..i + 1])
  {
    StageAccum(s, i);
    CumProdAt(Retentions(s), i);
  }

  /** Without dividends every retention rate is 1, so `adj_close` equals `close`. */
  lemma NoDividendsNoAdjustment(s: seq<Row>)
    requires Priced(s)
    requires forall k :: 0 <= k < |s| ==> s[k].values[DividendsColumn] == 0.0
    ensures forall i :: 0 <= i < |s| ==>
              && DividendStage(s)[i].values[AccumRetentionColumn] == 1.0
              && DividendStage(s)[i].values[AdjCloseColumn] == s[i].values[CloseColumn]
  {
    forall i | 0 <= i < |s|
      ensures DividendStage(s)[i].values[AccumRetentionColumn] == 1.0
      ensures DividendStage(s)[i].values[AdjCloseColumn] == s[i].values[CloseColumn]
    {
      NoDividendsRow(s, i);
    }
  }

  lemma NoDividendsRow(s: seq<Row>, i: int)
    requires Priced(s) && 0 <= i < |s|
    requires forall k :: 0 <= k < |s| ==> s[k].values[DividendsColumn] == 0.0
    ensures DividendStage(s)[i].values[AccumRetentionColumn] == 1.0
    ensures DividendStage(s)[i].values[AdjCloseColumn] == s[i].values[CloseColumn]
  {
    DividendRowAccum(s, i);
    var rs := Retentions(s)[..i + 1];
    forall k | 0 <= k < |rs| ensures rs[k] == 1.0 {
      NoDividendRetention(s, k);
    }
    ProdOfOnes(rs);
  }

  lemma NoDividendRetention(s: seq<Row>, k: int)
    requires Priced(s) && 0 <= k < |s|
    requires k > 0 ==> s[k - 1].values[DividendsColumn] == 0.0
    ensures RetentionAt(s, k) == 1.0
  {
  }

  /**
   * A worked example, newest first: a close of 100 on the newest row, and a
   * dividend of 1 paid on it against a close of 101 on the row before. The
   * older row's retention is 100/101, so its adjusted close is 100.
   */
  lemma DividendExample()
    ensures var s := [Row(Stamp(2024, 2, 0), map[DividendsColumn := 1.0, CloseColumn := 100.0]),
                      Row(Stamp(2024, 1, 0), map[DividendsColumn := 0.0, CloseColumn := 101.0])];
      && Priced(s)
      && DividendStage(s)[0].values[AdjCloseColumn] == 100.0
      && DividendStage(s)[1].values[RetentionColumn] == 100.0 / 101.0
      && DividendStage(s)[1].values[AdjCloseColumn] == 100.0
  {
    var s := [Row(Stamp(2024, 2, 0), map[DividendsColumn := 1.0, CloseColumn := 100.0]),
              Row(Stamp(2024, 1, 0), map[DividendsColumn := 0.0, CloseColumn := 101.0])];
    DividendRowAccum(s, 0);
    DividendRowAccum(s, 1);
    DividendRowRetention(s, 1);
    assert Retentions(s)[..1] == [1.0];
    assert Retentions(s)[..2] == [1.0, 100.0 / 101.0];
    assert [1.0, 100.0 / 101.0][1..] == [100.0 / 101.0];
  }
}
