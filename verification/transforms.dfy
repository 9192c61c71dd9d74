/**
 * The split half of the two price transforms of functions/data_processor.py
 * on an in-memory frame: `convert_price_to_raw` (lines 78-94) multiplies the
 * adjust columns by the split factors, `adjust_price` (lines 223-237) divides
 * them by the same factors and then adjusts for dividends. Both work on the
 * rows newest first.
 */
module Transforms {
  import opened Frame
  import opened Factors
  import opened Columns
  import opened Dividends

  const AdjustFactorColumn := "adjust_factor"
  const CumAdjColumn := "cum_adj_factor"

  /** The two columns both transforms add before adjusting. */
  predicate IsFactorColumn(c: string) {
    c == AdjustFactorColumn || c == CumAdjColumn
  }

  predicate NoFactorColumns(cols: seq<string>) {
    forall k :: 0 <= k < |cols| ==> !IsFactorColumn(cols[k])
  }

  /** Every column of the adjust loop exists once the factor columns have been added. */
  predicate Adjustable(rows: seq<Row>, cols: seq<string>) {
    forall k :: 0 <= k < |cols| ==> IsFactorColumn(cols[k]) || HasColumn(rows, cols[k])
  }

  /** A row's columns with the two factor columns set. */
  function AddFactors(v: map<string, real>, factor: real, cum: real): map<string, real> {
    v[AdjustFactorColumn := factor][CumAdjColumn := cum]
  }

  /** A row's columns without the two factor columns (line 94). */
  function DropFactors(v: map<string, real>): map<string, real> {
    v - {AdjustFactorColumn, CumAdjColumn}
  }

  // ---------------------------------------------------------------------------
  // The frame newest first, as both transforms hold it.
  // ---------------------------------------------------------------------------

  /** Lines 79-82 (and 226-229): add `adjust_factor` and `cum_adj_factor` to each row. */
  function WithFactors(desc: seq<Row>, split: string): (r: seq<Row>)
    requires HasColumn(desc, split)
    ensures |r| == |desc|
  {
    var cum := CumAdjFactors(Column(desc, split));
    seq(|desc|, j requires 0 <= j < |desc| =>
      desc[j].(values := AddFactors(desc[j].values, AdjustFactor(desc[j].values[split]), cum[j])))
  }

  /** Every row of the frame with the factor columns added can run the adjust loop. */
  lemma WithFactorsAdjustable(desc: seq<Row>, cols: seq<string>, split: string)
    requires HasColumn(desc, split) && Adjustable(desc, cols)
    ensures forall j :: 0 <= j < |desc| ==>
              && CumAdjColumn in WithFactors(desc, split)[j].values
              && WithFactors(desc, split)[j].values[CumAdjColumn] != 0.0
              && forall k :: 0 <= k < |cols| ==> cols[k] in WithFactors(desc, split)[j].values
  {
  }

  /** Lines 79-85: factors added, then every adjust column multiplied by `cum_adj_factor`. */
  function MultiplyByFactors(desc: seq<Row>, cols: seq<string>, split: string): (r: seq<Row>)
    requires HasColumn(desc, split) && Adjustable(desc, cols)
    ensures |r| == |desc|
  {
    var framed := WithFactors(desc, split);
    WithFactorsAdjustable(desc, cols, split);
    seq(|framed|, j requires 0 <= j < |framed| =>
      framed[j].(values := MultiplyColumns(framed[j].values, cols, CumAdjColumn)))
  }

  /** Lines 226-231: factors added, then every adjust column divided by `cum_adj_factor`. */
  function DivideByFactors(desc: seq<Row>, cols: seq<string>, split: string): (r: seq<Row>)
    requires HasColumn(desc, split) && Adjustable(desc, cols)
    ensures |r| == |desc|
  {
    var framed := WithFactors(desc, split);
    WithFactorsAdjustable(desc, cols, split);
    seq(|framed|, j requires 0 <= j < |framed| =>
      framed[j].(values := DivideColumns(framed[j].values, cols, CumAdjColumn)))
  }

  /** Line 94: `drop(['adjust_factor', 'cum_adj_factor'], axis=1)`. */
  function DropFactorColumns(s: seq<Row>): (r: seq<Row>)
    ensures |r| == |s|
    ensures forall j :: 0 <= j < |s| ==> r[j].ts == s[j].ts
    ensures forall j :: 0 <= j < |s| ==>
              && AdjustFactorColumn !in r[j].values && CumAdjColumn !in r[j].values
              && forall c :: c in s[j].values && !IsFactorColumn(c) ==>
                   c in r[j].values && r[j].values[c] == s[j].values[c]
  {
    seq(|s|, j requires 0 <= j < |s| => s[j].(values := DropFactors(s[j].values)))
  }

  lemma ReverseKeepsColumns(rows: seq<Row>, cols: seq<string>, c: string)
    requires HasColumn(rows, c) && Adjustable(rows, cols)
    ensures HasColumn(Reverse(rows), c) && Adjustable(Reverse(rows), cols)
  {
  }

  // ---------------------------------------------------------------------------
  // The same factors stated on the frame oldest first.
  // ---------------------------------------------------------------------------

  /**
   * The product of the adjust factors of every row after row `i`, that is of
   * every split that happened later than row `i`'s timestamp.
   */
  function LaterSplitFactor(rows: seq<Row>, split: string, i: int): real
    requires HasColumn(rows, split) && 0 <= i < |rows|
  {
    Prod(AdjustFactors(Column(rows, split))[i + 1..])
  }

  lemma LaterSplitFactorNonZero(rows: seq<Row>, split: string, i: int)
    requires HasColumn(rows, split) && 0 <= i < |rows|
    ensures LaterSplitFactor(rows, split, i) != 0.0
  {
    ProdNonZero(AdjustFactors(Column(rows, split))[i + 1..]);
  }

  /** Row `i` of the oldest-first frame with its factor columns: its own split and all later ones. */
  function FactoredRow(rows: seq<Row>, split: string, i: int): (r: map<string, real>)
    requires HasColumn(rows, split) && 0 <= i < |rows|
    ensures CumAdjColumn in r && r[CumAdjColumn] != 0.0
  {
    LaterSplitFactorNonZero(rows, split, i);
    AddFactors(rows[i].values, AdjustFactor(rows[i].values[split]), LaterSplitFactor(rows, split, i))
  }

  /**
   * The shifted running product over the newest-first frame gives each row
   * the product of the factors of all later rows.
   */
  lemma CumAdjIsLaterSplits(rows: seq<Row>, split: string, i: int)
    requires HasColumn(rows, split) && 0 <= i < |rows|
    ensures HasColumn(Reverse(rows), split)
    ensures CumAdjFactors(Column(Reverse(rows), split))[|rows| - 1 - i] == LaterSplitFactor(rows, split, i)
  {
    var j := |rows| - 1 - i;
    var fs := AdjustFactors(Column(rows, split));
    var rfs := AdjustFactors(Column(Reverse(rows), split));
    CumAdjFactorsIsProd(Column(Reverse(rows), split));
    assert rfs[..j] == Reverse(fs[i + 1..]);
    ProdReverse(fs[i + 1..]);
  }

  /** Factors computed newest first, row by row, are the oldest-first `FactoredRow`. */
  lemma WithFactorsReversed(rows: seq<Row>, split: string, i: int)
    requires HasColumn(rows, split) && 0 <= i < |rows|
    ensures HasColumn(Reverse(rows), split)
    ensures WithFactors(Reverse(rows), split)[|rows| - 1 - i] == rows[i].(values := FactoredRow(rows, split, i))
  {
    CumAdjIsLaterSplits(rows, split, i);
  }

  // ---------------------------------------------------------------------------
  // convert_price_to_raw on a loaded frame.
  // ---------------------------------------------------------------------------

  /**
   * Lines 78-94: sort newest first, multiply the adjust columns by the split
   * factors, sort oldest first again, and drop the factor columns when
   * asked. The rows and their timestamps are those of the input, still
   * oldest first.
   */
  function ToRawSeries(rows: seq<Row>, cols: seq<string>, split: string, removeFactors: bool): (r: seq<Row>)
    requires Ascending(rows) && HasColumn(rows, split) && Adjustable(rows, cols)
    ensures |r| == |rows|
    ensures forall i :: 0 <= i < |rows| ==> r[i].ts == rows[i].ts
    ensures Ascending(r)
  {
    ReverseKeepsColumns(rows, cols, split);
    var multiplied := MultiplyByFactors(Reverse(rows), cols, split);
    var kept := if removeFactors then DropFactorColumns(multiplied) else multiplied;
    var r := Reverse(kept);
    StampsKept(r, rows);
    r
  }

  /** The adjust columns are present on every factored row. */
  lemma FactoredRowAdjustable(rows: seq<Row>, cols: seq<string>, split: string, i: int)
    requires HasColumn(rows, split) && Adjustable(rows, cols) && 0 <= i < |rows|
    ensures CumAdjColumn in FactoredRow(rows, split, i)
    ensures FactoredRow(rows, split, i)[CumAdjColumn] != 0.0
    ensures forall k :: 0 <= k < |cols| ==> cols[k] in FactoredRow(rows, split, i)
  {
    LaterSplitFactorNonZero(rows, split, i);
  }

  /** Row `i` of the raw series is row `i` of the input, factored, multiplied and trimmed. */
  lemma RawRow(rows: seq<Row>, cols: seq<string>, split: string, removeFactors: bool, i: int)
    requires Ascending(rows) && HasColumn(rows, split) && Adjustable(rows, cols)
    requires 0 <= i < |rows|
    ensures var m := MultiplyColumns(FactoredRow(rows, split, i), cols, CumAdjColumn);
      ToRawSeries(rows, cols, split, removeFactors)[i]
        == rows[i].(values := if removeFactors then DropFactors(m) else m)
  {
    FactoredRowAdjustable(rows, cols, split, i);
    ReverseKeepsColumns(rows, cols, split);
    var j := |rows| - 1 - i;
    var desc := Reverse(rows);
    var multiplied := MultiplyByFactors(desc, cols, split);
    RawIsReversed(rows, cols, split, removeFactors, i);
    WithFactorsReversed(rows, split, i);
    MultipliedAt(desc, cols, split, j);
    if removeFactors {
      DroppedAt(multiplied, j);
    }
  }

  /** Row `i` of the raw series is row `n-1-i` of the multiplied newest-first frame, trimmed when asked. */
  lemma RawIsReversed(rows: seq<Row>, cols: seq<string>, split: string, removeFactors: bool, i: int)
    requires Ascending(rows) && HasColumn(rows, split) && Adjustable(rows, cols)
    requires 0 <= i < |rows|
    ensures HasColumn(Reverse(rows), split) && Adjustable(Reverse(rows), cols)
    ensures var multiplied := MultiplyByFactors(Reverse(rows), cols, split);
      ToRawSeries(rows, cols, split, removeFactors)[i]
        == (if removeFactors then DropFactorColumns(multiplied) else multiplied)[|rows| - 1 - i]
  {
    ReverseKeepsColumns(rows, cols, split);
  }

  /** Row j of the multiplied frame is row j with its factor columns added and the listed columns multiplied by its cumulative factor. */
  lemma MultipliedAt(desc: seq<Row>, cols: seq<string>, split: string, j: int)
    requires HasColumn(desc, split) && Adjustable(desc, cols) && 0 <= j < |desc|
    ensures forall k :: 0 <= k < |cols| ==> cols[k] in WithFactors(desc, split)[j].values
    ensures CumAdjColumn in WithFactors(desc, split)[j].values
    ensures var f := WithFactors(desc, split)[j];
      MultiplyByFactors(desc, cols, split)[j] == f.(values := MultiplyColumns(f.values, cols, CumAdjColumn))
  {
    WithFactorsAdjustable(desc, cols, split);
  }

  /** Dropping the factor columns works row by row. */
  lemma DroppedAt(s: seq<Row>, j: int)
    requires 0 <= j < |s|
    ensures DropFactorColumns(s)[j] == s[j].(values := DropFactors(s[j].values))
  {
  }

  /**
   * A column of the raw series that is not in the adjust list (the split
   * column, say) holds the input's value.
   */
  lemma RawUnlisted(rows: seq<Row>, cols: seq<string>, split: string, removeFactors: bool, i: int, c: string)
    requires Ascending(rows) && HasColumn(rows, split) && Adjustable(rows, cols)
    requires 0 <= i < |rows|
    requires c in rows[i].values && c !in cols && !IsFactorColumn(c)
    ensures c in ToRawSeries(rows, cols, split, removeFactors)[i].values
    ensures ToRawSeries(rows, cols, split, removeFactors)[i].values[c] == rows[i].values[c]
  {
    RawRow(rows, cols, split, removeFactors, i);
    FactoredRowAdjustable(rows, cols, split, i);
    FactoredRowKeeps(rows, split, i, c);
    MultipliedUnlisted(FactoredRow(rows, split, i), cols, removeFactors, c);
  }

  /** A column outside the adjust list keeps its value through the multiplication and the drop. */
  lemma MultipliedUnlisted(v: map<string, real>, cols: seq<string>, removeFactors: bool, c: string)
    requires CumAdjColumn in v
    requires forall k :: 0 <= k < |cols| ==> cols[k] in v
    requires c in v && c !in cols && !IsFactorColumn(c)
    ensures var m := MultiplyColumns(v, cols, CumAdjColumn);
      var r := if removeFactors then DropFactors(m) else m;
      c in r && r[c] == v[c]
  {
    MultiplyColumnsUnlisted(v, cols, CumAdjColumn, c);
  }

  /**
   * Each adjust column of the raw series holds the input's value multiplied
   * by the product of the splits that happened later, once per time the
   * column is listed (`ScaledIsPow` turns this into a power).
   */
  lemma RawScaled(rows: seq<Row>, cols: seq<string>, split: string, removeFactors: bool, i: int, c: string)
    requires Ascending(rows) && HasColumn(rows, split) && Adjustable(rows, cols)
    requires NoFactorColumns(cols)
    requires 0 <= i < |rows|
    requires c in rows[i].values && !IsFactorColumn(c)
    ensures c in ToRawSeries(rows, cols, split, removeFactors)[i].values
    ensures ToRawSeries(rows, cols, split, removeFactors)[i].values[c]
              == Scaled(rows[i].values[c], LaterSplitFactor(rows, split, i), Occurrences(cols, c))
  {
    RawRow(rows, cols, split, removeFactors, i);
    FactoredRowAdjustable(rows, cols, split, i);
    FactoredRowKeeps(rows, split, i, c);
    assert CumAdjColumn !in cols;
    MultipliedScaled(FactoredRow(rows, split, i), cols, removeFactors, c);
  }

  /** One column of a row multiplied by `cum_adj_factor`, with the factor columns then kept or dropped. */
  lemma MultipliedScaled(v: map<string, real>, cols: seq<string>, removeFactors: bool, c: string)
    requires CumAdjColumn in v && CumAdjColumn !in cols
    requires forall k :: 0 <= k < |cols| ==> cols[k] in v
    requires c in v && !IsFactorColumn(c)
    ensures var m := MultiplyColumns(v, cols, CumAdjColumn);
      var r := if removeFactors then DropFactors(m) else m;
      c in r && r[c] == Scaled(v[c], v[CumAdjColumn], Occurrences(cols, c))
  {
    MultiplyColumnsAt(v, cols, CumAdjColumn, c);
  }

  /** Factoring a row leaves its other columns as they are and sets `cum_adj_factor` to the later splits. */
  lemma FactoredRowKeeps(rows: seq<Row>, split: string, i: int, c: string)
    requires HasColumn(rows, split) && 0 <= i < |rows|
    requires c in rows[i].values && !IsFactorColumn(c)
    ensures c in FactoredRow(rows, split, i) && FactoredRow(rows, split, i)[c] == rows[i].values[c]
    ensures FactoredRow(rows, split, i)[CumAdjColumn] == LaterSplitFactor(rows, split, i)
  {
  }

  /**
   * The factor columns of the raw series, when kept, hold the row's own
   * adjust factor and the product of the later splits; when removed they
   * are gone. No other column appears or disappears.
   */
  lemma RawFactorColumns(rows: seq<Row>, cols: seq<string>, split: string, removeFactors: bool, i: int)
    requires Ascending(rows) && HasColumn(rows, split) && Adjustable(rows, cols)
    requires NoFactorColumns(cols)
    requires 0 <= i < |rows|
    ensures var r := ToRawSeries(rows, cols, split, removeFactors)[i].values;
      && (removeFactors ==> r.Keys == rows[i].values.Keys - {AdjustFactorColumn, CumAdjColumn})
      && (!removeFactors ==> r.Keys == rows[i].values.Keys + {AdjustFactorColumn, CumAdjColumn})
      && (!removeFactors ==> r[AdjustFactorColumn] == AdjustFactor(rows[i].values[split]))
      && (!removeFactors ==> r[CumAdjColumn] == LaterSplitFactor(rows, split, i))
  {
    RawRow(rows, cols, split, removeFactors, i);
    FactoredRowAdjustable(rows, cols, split, i);
    assert AdjustFactorColumn !in cols && CumAdjColumn !in cols;
    MultipliedFactors(rows[i].values, AdjustFactor(rows[i].values[split]), LaterSplitFactor(rows, split, i), cols, removeFactors);
  }

  /** The factor columns of a factored row once it is multiplied, and then kept or dropped. */
  lemma MultipliedFactors(v: map<string, real>, a: real, b: real, cols: seq<string>, removeFactors: bool)
    requires AdjustFactorColumn !in cols && CumAdjColumn !in cols
    requires forall k :: 0 <= k < |cols| ==> cols[k] in AddFactors(v, a, b)
    ensures var m := MultiplyColumns(AddFactors(v, a, b), cols, CumAdjColumn);
      var r := if removeFactors then DropFactors(m) else m;
      && (removeFactors ==> r.Keys == v.Keys - {AdjustFactorColumn, CumAdjColumn})
      && (!removeFactors ==> r.Keys == v.Keys + {AdjustFactorColumn, CumAdjColumn})
      && (!removeFactors ==> r[AdjustFactorColumn] == a && r[CumAdjColumn] == b)
  {
    var f := AddFactors(v, a, b);
    MultiplyColumnsUnlisted(f, cols, CumAdjColumn, AdjustFactorColumn);
    MultiplyColumnsUnlisted(f, cols, CumAdjColumn, CumAdjColumn);
    FactorKeys(v, a, b, MultiplyColumns(f, cols, CumAdjColumn));
  }

  /** The keys of a row with factors added, and of any row keyed like it once they are dropped. */
  lemma FactorKeys(v: map<string, real>, a: real, b: real, m: map<string, real>)
    requires m.Keys == AddFactors(v, a, b).Keys
    ensures m.Keys == v.Keys + {AdjustFactorColumn, CumAdjColumn}
    ensures DropFactors(m).Keys == v.Keys - {AdjustFactorColumn, CumAdjColumn}
  {
  }

  // ---------------------------------------------------------------------------
  // adjust_price on a loaded frame.
  // ---------------------------------------------------------------------------

  /** Row `n-1-i` of the divided newest-first frame is row `i` of the input, factored and divided. */
  lemma DividedRow(rows: seq<Row>, cols: seq<string>, split: string, i: int)
    requires HasColumn(rows, split) && Adjustable(rows, cols)
    requires 0 <= i < |rows|
    ensures HasColumn(Reverse(rows), split) && Adjustable(Reverse(rows), cols)
    ensures DivideByFactors(Reverse(rows), cols, split)[|rows| - 1 - i]
        == rows[i].(values := DivideColumns(FactoredRow(rows, split, i), cols, CumAdjColumn))
  {
    FactoredRowAdjustable(rows, cols, split, i);
    ReverseKeepsColumns(rows, cols, split);
    WithFactorsReversed(rows, split, i);
  }

  /** The split division keeps the dividend and close columns and a non-zero close. */
  lemma DividedPriced(rows: seq<Row>, cols: seq<string>, split: string)
    requires HasColumn(rows, split) && Adjustable(rows, cols) && Priced(rows)
    ensures HasColumn(Reverse(rows), split) && Adjustable(Reverse(rows), cols)
    ensures Priced(DivideByFactors(Reverse(rows), cols, split))
  {
    ReverseKeepsColumns(rows, cols, split);
    var d := DivideByFactors(Reverse(rows), cols, split);
    forall j | 0 <= j < |rows|
      ensures DividendsColumn in d[j].values && CloseColumn in d[j].values
      ensures d[j].values[CloseColumn] != 0.0
    {
      var i := |rows| - 1 - j;
      DividedRow(rows, cols, split, i);
      FactoredRowAdjustable(rows, cols, split, i);
      DivideColumnsNonZero(FactoredRow(rows, split, i), cols, CumAdjColumn, CloseColumn);
    }
  }

  /**
   * Lines 223-237: sort newest first, divide the adjust columns by the split
   * factors, then adjust for dividends. The result stays newest first:
   * nothing sorts it back.
   */
  function AdjustSeries(rows: seq<Row>, cols: seq<string>, split: string): (r: seq<Row>)
    requires Ascending(rows) && HasColumn(rows, split) && Adjustable(rows, cols) && Priced(rows)
    ensures |r| == |rows|
    ensures forall j :: 0 <= j < |rows| ==> r[j].ts == rows[|rows| - 1 - j].ts
    ensures Descending(r)
  {
    DividedPriced(rows, cols, split);
    var r := DividendStage(DivideByFactors(Reverse(rows), cols, split));
    StampsReversed(r, rows);
    r
  }

  /**
   * Each adjust column `adjust_price` returns, other than the four the
   * dividend stage adds, holds the input's value divided by the product of
   * the later splits, once per time the column is listed
   * (`UnscaledIsQuotient` turns this into a power).
   */
  lemma AdjustedScaled(rows: seq<Row>, cols: seq<string>, split: string, i: int, c: string)
    requires Ascending(rows) && HasColumn(rows, split) && Adjustable(rows, cols) && Priced(rows)
    requires NoFactorColumns(cols)
    requires 0 <= i < |rows|
    requires c in rows[i].values && !IsFactorColumn(c) && !IsDividendColumn(c)
    ensures LaterSplitFactor(rows, split, i) != 0.0
    ensures var r := AdjustSeries(rows, cols, split)[|rows| - 1 - i].values;
      c in r && r[c] == Unscaled(rows[i].values[c], LaterSplitFactor(rows, split, i), Occurrences(cols, c))
  {
    LaterSplitFactorNonZero(rows, split, i);
    DividedPriced(rows, cols, split);
    DividedScaled(rows, cols, split, i, c);
    var d := DivideByFactors(Reverse(rows), cols, split);
    DividendRowKeeps(d, |rows| - 1 - i, c);
    assert AdjustSeries(rows, cols, split) == DividendStage(d);
  }

  /** The split half of `AdjustedScaled`: one column of the divided newest-first frame. */
  lemma DividedScaled(rows: seq<Row>, cols: seq<string>, split: string, i: int, c: string)
    requires HasColumn(rows, split) && Adjustable(rows, cols) && NoFactorColumns(cols)
    requires 0 <= i < |rows|
    requires c in rows[i].values && !IsFactorColumn(c)
    ensures HasColumn(Reverse(rows), split) && Adjustable(Reverse(rows), cols)
    ensures LaterSplitFactor(rows, split, i) != 0.0
    ensures var d := DivideByFactors(Reverse(rows), cols, split)[|rows| - 1 - i].values;
      c in d && d[c] == Unscaled(rows[i].values[c], LaterSplitFactor(rows, split, i), Occurrences(cols, c))
  {
    LaterSplitFactorNonZero(rows, split, i);
    DividedRow(rows, cols, split, i);
    FactoredRowAdjustable(rows, cols, split, i);
    var v := FactoredRow(rows, split, i);
    assert CumAdjColumn !in cols;
    assert v[c] == rows[i].values[c] && v[CumAdjColumn] == LaterSplitFactor(rows, split, i);
    DivideColumnsAt(v, cols, CumAdjColumn, c);
  }

  /**
   * `fwd_div` of a row of `adjust_price` is the split-divided dividend of the
   * next newer row (0 on the newest), and `adj_close` is that row's divided
   * close times the product of the retention rates up to it.
   */
  lemma AdjustedDividends(rows: seq<Row>, cols: seq<string>, split: string, j: int)
    requires Ascending(rows) && HasColumn(rows, split) && Adjustable(rows, cols) && Priced(rows)
    requires 0 <= j < |rows|
    ensures HasColumn(Reverse(rows), split) && Adjustable(Reverse(rows), cols)
    ensures Priced(DivideByFactors(Reverse(rows), cols, split))
    ensures var d := DivideByFactors(Reverse(rows), cols, split);
      var r := AdjustSeries(rows, cols, split)[j].values;
      && r[FwdDivColumn] == (if j == 0 then 0.0 else d[j - 1].values[DividendsColumn])
      && r[RetentionColumn] == 1.0 - Over(r[FwdDivColumn], d[j].values[CloseColumn])
      && r[AccumRetentionColumn] == Prod(Retentions(d)[..j + 1])
      && r[AdjCloseColumn] == Times(r[AccumRetentionColumn], d[j].values[CloseColumn])
  {
    DividedPriced(rows, cols, split);
    var d := DivideByFactors(Reverse(rows), cols, split);
    DividendRowRetention(d, j);
    DividendRowAccum(d, j);
  }

  // ---------------------------------------------------------------------------
  // The two transforms undo each other's split step.
  // ---------------------------------------------------------------------------

  /** What the round trip needs: the split column is read, never adjusted nor a factor column. */
  predicate RoundTrippable(rows: seq<Row>, cols: seq<string>, split: string) {
    && Ascending(rows) && HasColumn(rows, split) && Adjustable(rows, cols)
    && NoFactorColumns(cols) && split !in cols && !IsFactorColumn(split)
  }

  /** Dropping and re-adding the factor columns a row had restores the row. */
  lemma RestoreFactors(m: map<string, real>, a: real, b: real)
    ensures AdjustFactorColumn in m && CumAdjColumn in m ==>
              AddFactors(DropFactors(m), m[AdjustFactorColumn], m[CumAdjColumn]) == m
    ensures AdjustFactorColumn in m && CumAdjColumn in m ==>
              AddFactors(m, m[AdjustFactorColumn], m[CumAdjColumn]) == m
    ensures DropFactors(AddFactors(m, a, b)) == DropFactors(m)
  {
  }

  /** The raw series keeps the split column, so adjusting it recomputes the same factors. */
  lemma RawKeepsSplits(rows: seq<Row>, cols: seq<string>, split: string)
    requires RoundTrippable(rows, cols, split)
    ensures var raw := ToRawSeries(rows, cols, split, true);
      && HasColumn(raw, split) && Adjustable(raw, cols)
      && Column(raw, split) == Column(rows, split)
  {
    var raw := ToRawSeries(rows, cols, split, true);
    forall k | 0 <= k < |rows|
      ensures split in raw[k].values && raw[k].values[split] == rows[k].values[split]
      ensures forall q :: 0 <= q < |cols| ==> cols[q] in raw[k].values
    {
      RawUnlisted(rows, cols, split, true, k, split);
      RawRow(rows, cols, split, true, k);
      FactoredRowAdjustable(rows, cols, split, k);
    }
  }

  /** Row `i` of the raw series, with its factors recomputed, is row `i` multiplied. */
  lemma RawRefactored(rows: seq<Row>, cols: seq<string>, split: string, i: int)
    requires RoundTrippable(rows, cols, split) && 0 <= i < |rows|
    ensures HasColumn(ToRawSeries(rows, cols, split, true), split)
    ensures forall k :: 0 <= k < |cols| ==> cols[k] in FactoredRow(rows, split, i)
    ensures FactoredRow(ToRawSeries(rows, cols, split, true), split, i)
              == MultiplyColumns(FactoredRow(rows, split, i), cols, CumAdjColumn)
  {
    var raw := ToRawSeries(rows, cols, split, true);
    RawKeepsSplits(rows, cols, split);
    RawRow(rows, cols, split, true, i);
    FactoredRowAdjustable(rows, cols, split, i);
    assert AdjustFactorColumn !in cols && CumAdjColumn !in cols;
    RawUnlisted(rows, cols, split, true, i, split);
    assert LaterSplitFactor(raw, split, i) == LaterSplitFactor(rows, split, i);
    LaterSplitFactorNonZero(rows, split, i);
    RefactorMultiplied(rows[i].values, AdjustFactor(rows[i].values[split]), LaterSplitFactor(rows, split, i), cols);
  }

  /** Dropping the factor columns of a multiplied row and adding the same factors back restores it. */
  lemma RefactorMultiplied(v: map<string, real>, a: real, b: real, cols: seq<string>)
    requires AdjustFactorColumn !in cols && CumAdjColumn !in cols
    requires forall k :: 0 <= k < |cols| ==> cols[k] in AddFactors(v, a, b)
    ensures var m := MultiplyColumns(AddFactors(v, a, b), cols, CumAdjColumn);
      AddFactors(DropFactors(m), a, b) == m
  {
    var m := MultiplyColumns(AddFactors(v, a, b), cols, CumAdjColumn);
    MultipliedFactors(v, a, b, cols, false);
    RestoreFactors(m, 0.0, 0.0);
  }

  /** One row of the first round trip. */
  lemma RawThenDivideAt(rows: seq<Row>, cols: seq<string>, split: string, j: int)
    requires RoundTrippable(rows, cols, split) && 0 <= j < |rows|
    ensures HasColumn(Reverse(ToRawSeries(rows, cols, split, true)), split)
    ensures Adjustable(Reverse(ToRawSeries(rows, cols, split, true)), cols)
    ensures HasColumn(Reverse(rows), split)
    ensures DivideByFactors(Reverse(ToRawSeries(rows, cols, split, true)), cols, split)[j]
              == WithFactors(Reverse(rows), split)[j]
  {
    var raw := ToRawSeries(rows, cols, split, true);
    var i := |rows| - 1 - j;
    RawKeepsSplits(rows, cols, split);
    DividedRow(raw, cols, split, i);
    RawRefactored(rows, cols, split, i);
    FactoredRowAdjustable(rows, cols, split, i);
    var v := FactoredRow(rows, split, i);
    assert CumAdjColumn !in cols;
    DivideInvertsMultiply(v, cols, CumAdjColumn);
    WithFactorsReversed(rows, split, i);
  }

  /**
   * `adjust_price`'s split step undoes `convert_price_to_raw`: dividing the
   * raw series by the factors gives back the input with its factor columns,
   * row for row.
   */
  lemma RawThenDivide(rows: seq<Row>, cols: seq<string>, split: string)
    requires RoundTrippable(rows, cols, split)
    ensures HasColumn(Reverse(ToRawSeries(rows, cols, split, true)), split)
    ensures Adjustable(Reverse(ToRawSeries(rows, cols, split, true)), cols)
    ensures HasColumn(Reverse(rows), split)
    ensures DivideByFactors(Reverse(ToRawSeries(rows, cols, split, true)), cols, split)
              == WithFactors(Reverse(rows), split)
  {
    RawKeepsSplits(rows, cols, split);
    ReverseKeepsColumns(ToRawSeries(rows, cols, split, true), cols, split);
    ReverseKeepsColumns(rows, cols, split);
    forall j | 0 <= j < |rows|
      ensures DivideByFactors(Reverse(ToRawSeries(rows, cols, split, true)), cols, split)[j]
                == WithFactors(Reverse(rows), split)[j]
    {
      RawThenDivideAt(rows, cols, split, j);
    }
  }

  /** The split-divided frame, turned back to oldest first. */
  function DividedAscending(rows: seq<Row>, cols: seq<string>, split: string): (r: seq<Row>)
    requires HasColumn(rows, split) && Adjustable(rows, cols)
    ensures |r| == |rows|
  {
    ReverseKeepsColumns(rows, cols, split);
    Reverse(DivideByFactors(Reverse(rows), cols, split))
  }

  /** Row `i` of the divided frame, oldest first, is row `i` of the input factored and divided. */
  lemma DividedAscendingRow(rows: seq<Row>, cols: seq<string>, split: string, i: int)
    requires HasColumn(rows, split) && Adjustable(rows, cols) && 0 <= i < |rows|
    ensures forall k :: 0 <= k < |cols| ==> cols[k] in FactoredRow(rows, split, i)
    ensures DividedAscending(rows, cols, split)[i]
              == rows[i].(values := DivideColumns(FactoredRow(rows, split, i), cols, CumAdjColumn))
  {
    FactoredRowAdjustable(rows, cols, split, i);
    DividedRow(rows, cols, split, i);
    var d := DivideByFactors(Reverse(rows), cols, split);
    assert DividedAscending(rows, cols, split) == Reverse(d);
    assert Reverse(d)[i] == d[|rows| - 1 - i];
  }

  /** The divided frame keeps the input's order, split column and adjust columns. */
  lemma DividedKeepsSplits(rows: seq<Row>, cols: seq<string>, split: string)
    requires RoundTrippable(rows, cols, split)
    ensures var back := DividedAscending(rows, cols, split);
      && Ascending(back) && HasColumn(back, split) && Adjustable(back, cols)
      && Column(back, split) == Column(rows, split)
  {
    var back := DividedAscending(rows, cols, split);
    forall k | 0 <= k < |rows|
      ensures back[k].ts == rows[k].ts
      ensures split in back[k].values && back[k].values[split] == rows[k].values[split]
      ensures forall q :: 0 <= q < |cols| ==> cols[q] in back[k].values
    {
      DividedAscendingRow(rows, cols, split, k);
      DivideColumnsUnlisted(FactoredRow(rows, split, k), cols, CumAdjColumn, split);
    }
    StampsKept(back, rows);
  }

  /** Row `i` of the divided frame, with its factors recomputed, is itself. */
  lemma DividedRefactored(rows: seq<Row>, cols: seq<string>, split: string, i: int)
    requires RoundTrippable(rows, cols, split) && 0 <= i < |rows|
    ensures HasColumn(DividedAscending(rows, cols, split), split)
    ensures forall k :: 0 <= k < |cols| ==> cols[k] in FactoredRow(rows, split, i)
    ensures FactoredRow(DividedAscending(rows, cols, split), split, i)
              == DivideColumns(FactoredRow(rows, split, i), cols, CumAdjColumn)
  {
    var back := DividedAscending(rows, cols, split);
    DividedKeepsSplits(rows, cols, split);
    DividedAscendingRow(rows, cols, split, i);
    var v := FactoredRow(rows, split, i);
    var d := DivideColumns(v, cols, CumAdjColumn);
    assert AdjustFactorColumn !in cols && CumAdjColumn !in cols;
    DivideColumnsUnlisted(v, cols, CumAdjColumn, AdjustFactorColumn);
    DivideColumnsUnlisted(v, cols, CumAdjColumn, CumAdjColumn);
    assert LaterSplitFactor(back, split, i) == LaterSplitFactor(rows, split, i);
    RestoreFactors(d, 0.0, 0.0);
  }

  /** One row of the second round trip. */
  lemma DivideThenRawAt(rows: seq<Row>, cols: seq<string>, split: string, i: int)
    requires RoundTrippable(rows, cols, split) && 0 <= i < |rows|
    ensures var back := DividedAscending(rows, cols, split);
      Ascending(back) && HasColumn(back, split) && Adjustable(back, cols)
    ensures ToRawSeries(DividedAscending(rows, cols, split), cols, split, true)[i] == DropFactorColumns(rows)[i]
  {
    var back := DividedAscending(rows, cols, split);
    DividedKeepsSplits(rows, cols, split);
    RawRow(back, cols, split, true, i);
    DividedRefactored(rows, cols, split, i);
    DividedAscendingRow(rows, cols, split, i);
    var v := FactoredRow(rows, split, i);
    assert CumAdjColumn !in cols;
    DivideInvertsMultiply(v, cols, CumAdjColumn);
    RestoreFactors(rows[i].values, AdjustFactor(rows[i].values[split]), LaterSplitFactor(rows, split, i));
  }

  /**
   * `convert_price_to_raw` undoes `adjust_price`'s split step: taking the
   * divided frame back to oldest first and multiplying by the factors again
   * gives back the input without factor columns, row for row.
   */
  lemma DivideThenRaw(rows: seq<Row>, cols: seq<string>, split: string)
    requires RoundTrippable(rows, cols, split)
    ensures var back := DividedAscending(rows, cols, split);
      Ascending(back) && HasColumn(back, split) && Adjustable(back, cols)
    ensures ToRawSeries(DividedAscending(rows, cols, split), cols, split, true) == DropFactorColumns(rows)
  {
    DividedKeepsSplits(rows, cols, split);
    forall i | 0 <= i < |rows|
      ensures ToRawSeries(DividedAscending(rows, cols, split), cols, split, true)[i] == DropFactorColumns(rows)[i]
    {
      DivideThenRawAt(rows, cols, split, i);
    }
  }
}
