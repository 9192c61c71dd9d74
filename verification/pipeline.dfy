/**
 * The four public functions of functions/data_processor.py on a file store:
 * `convert_price_to_raw` and `adjust_price` for one ticker (lines 46-112 and
 * 191-239), and their batch forms over a ticker list (lines 114-146 and
 * 242-262). A call returns the files it wrote and how it ended; a missing
 * column raises the `KeyError` pandas raises, and the save loop of
 * `convert_price_to_raw` raises the `IndexError` or `ValueError` of its
 * path parsing.
 */
module Pipeline {
  import opened Common
  import opened Frame
  import opened Dividends
  import opened Transforms
  import opened Text
  import opened Partitions
  import opened Batch

  /** The `dtype_dict` keys of `DEFAULT_DTYPE_DICT` (lines 5-15), in order. */
  const DefaultCastColumns := ["ticker", "open", "high", "low", "close", "volume", "adj close", "dividends", "stock splits"]
  /** The default `adjust_cols`. */
  const DefaultAdjustColumns := ["open", "high", "low", "close", "dividends"]
  /** The default `split_col_name`. */
  const DefaultSplitColumn := "stock splits"

  /**
   * The arguments of `convert_price_to_raw` other than the ticker; of the
   * `dtype_dict` only its keys are kept, since casting is not modelled.
   */
  datatype RawOptions = RawOptions(
    base: string, exportBase: string, first: int, last: int,
    castColumns: seq<string>, adjustColumns: seq<string>, split: string,
    removeFactors: bool, saveData: bool)

  /** The arguments of `adjust_price` other than the ticker; `exportBase` and `saveResult` are never read by it. */
  datatype AdjustOptions = AdjustOptions(
    base: string, exportBase: string, first: int, last: int,
    adjustColumns: seq<string>, split: string, saveResult: bool)

  /** The default settings do not adjust the split column, nor a factor column, nor any column twice. */
  lemma DefaultColumnsDisjoint()
    ensures NoFactorColumns(DefaultAdjustColumns)
    ensures DefaultSplitColumn !in DefaultAdjustColumns && !IsFactorColumn(DefaultSplitColumn)
    ensures forall a, b :: 0 <= a < b < |DefaultAdjustColumns| ==> DefaultAdjustColumns[a] != DefaultAdjustColumns[b]
  {
  }

  // ---------------------------------------------------------------------------
  // Reading the ticker's files.
  // ---------------------------------------------------------------------------

  /** Lines 78 and 223 before the sort: the rows of the ticker's files in the year range, file after file. */
  function Loaded(store: Store, base: string, first: int, last: int, ticker: string): seq<Row> {
    ParquetPaths(store, base, first, last, ticker);
    Load(store, GetParquetPaths(store, base, first, last, ticker))
  }

  /**
   * From a store in the layout the save loop writes, the loaded frame is
   * already oldest first, so `sort_index(ascending=False)` reverses it; and
   * each of its rows lies in a month whose file was found.
   */
  lemma LoadedSorted(store: Store, base: string, first: int, last: int, ticker: string)
    requires Partitioned(store, base, ticker)
    ensures Ascending(Loaded(store, base, first, last, ticker))
    ensures var rows := Loaded(store, base, first, last, ticker);
      forall i :: 0 <= i < |rows| ==> PartOf(rows[i].ts) in FoundParts(store, base, first, last, ticker)
  {
    ParquetPaths(store, base, first, last, ticker);
    var ps := FoundParts(store, base, first, last, ticker);
    LoadAscending(store, base, ticker, ps);
    LoadInParts(store, base, ticker, ps);
  }

  /**
   * The first column of `cols` on which `ticker_df[col]` raises `KeyError`:
   * one the frame lacks and that is not one of the two factor columns,
   * which exist by the time the loops of lines 84, 90 and 230 run.
   */
  function FirstMissing(rows: seq<Row>, cols: seq<string>): Option<string>
    decreases |cols|
  {
    if |cols| == 0 then None
    else if IsFactorColumn(cols[0]) || HasColumn(rows, cols[0]) then FirstMissing(rows, cols[1..])
    else Some(cols[0])
  }

  /**
   * No column is missing exactly when every listed column can be read; a
   * missing column is listed, unreadable, and every column before it can be
   * read.
   */
  lemma {:induction false} FirstMissingSpec(rows: seq<Row>, cols: seq<string>)
    ensures FirstMissing(rows, cols).None? <==> Adjustable(rows, cols)
    ensures FirstMissing(rows, cols).Some? ==>
              var c := FirstMissing(rows, cols).value;
              && !IsFactorColumn(c) && !HasColumn(rows, c)
              && exists k :: 0 <= k < |cols| && cols[k] == c && Adjustable(rows, cols[..k])
    decreases |cols|
  {
    if |cols| > 0 {
      FirstMissingSpec(rows, cols[1..]);
      assert forall k :: 1 <= k < |cols| ==> cols[k] == cols[1..][k - 1];
      if IsFactorColumn(cols[0]) || HasColumn(rows, cols[0]) {
        if FirstMissing(rows, cols).Some? {
          var c := FirstMissing(rows, cols).value;
          var k :| 0 <= k < |cols[1..]| && cols[1..][k] == c && Adjustable(rows, cols[1..][..k]);
          assert cols[..k + 1] == [cols[0]] + cols[1..][..k];
          assert cols[k + 1] == c;
        }
      } else {
        assert cols[..0] == [];
      }
    }
  }

  // ---------------------------------------------------------------------------
  // convert_price_to_raw (lines 46-112).
  // ---------------------------------------------------------------------------

  /**
   * Lines 66-112. No file: return `None`, writing nothing. Otherwise load
   * the files; read the split column (line 79), the adjust columns in order
   * (line 85) and the cast columns in order (line 91), raising for the
   * first missing one; compute the raw series; then either run the save
   * loop as written (lines 97-110) and return `None`, or return the series.
   */
  function ConvertPriceToRaw(store: Store, ticker: string, o: RawOptions): Run<Row, Option<seq<Row>>>
    requires Partitioned(store, o.base, ticker)
  {
    var ps := FoundParts(store, o.base, o.first, o.last, ticker);
    if |ps| == 0 then Run([], Returned(None))
    else
      var rows := Loaded(store, o.base, o.first, o.last, ticker);
      if !HasColumn(rows, o.split) then Run([], Raised(MissingColumn(o.split)))
      else match FirstMissing(rows, o.adjustColumns)
        case Some(c) => Run([], Raised(MissingColumn(c)))
        case None =>
          match FirstMissing(rows, o.castColumns)
          case Some(c) => Run([], Raised(MissingColumn(c)))
          case None =>
            LoadedSorted(store, o.base, o.first, o.last, ticker);
            FirstMissingSpec(rows, o.adjustColumns);
            var raw := ToRawSeries(rows, o.adjustColumns, o.split, o.removeFactors);
            if o.saveData then
              var saved := SaveAsWritten(raw, o.exportBase, ticker, PathsOf(o.base, ticker, ps));
              Run(saved.writes, if saved.outcome.Raised? then Raised(saved.outcome.error) else Returned(None))
            else Run([], Returned(Some(raw)))
  }

  /** Everything the conversion reads is there. */
  predicate ConvertReadable(rows: seq<Row>, o: RawOptions) {
    HasColumn(rows, o.split) && Adjustable(rows, o.adjustColumns) && Adjustable(rows, o.castColumns)
  }

  /**
   * Files found and everything readable: the conversion computes the raw
   * series of the loaded frame, then returns it or hands it to the save loop
   * as written, ending as that loop ends.
   */
  lemma ConvertReads(store: Store, ticker: string, o: RawOptions)
    requires Partitioned(store, o.base, ticker)
    requires GetParquetPaths(store, o.base, o.first, o.last, ticker) != []
    requires ConvertReadable(Loaded(store, o.base, o.first, o.last, ticker), o)
    ensures var rows := Loaded(store, o.base, o.first, o.last, ticker);
      && Ascending(rows)
      && var raw := ToRawSeries(rows, o.adjustColumns, o.split, o.removeFactors);
         var r := ConvertPriceToRaw(store, ticker, o);
         && (!o.saveData ==> r == Run([], Returned(Some(raw))))
         && (o.saveData ==>
               var saved := SaveAsWritten(raw, o.exportBase, ticker, GetParquetPaths(store, o.base, o.first, o.last, ticker));
               && r.writes == saved.writes
               && (r.outcome.Raised? <==> saved.outcome.Raised?)
               && (r.outcome.Raised? ==> r.outcome.error == saved.outcome.error)
               && (r.outcome.Returned? ==> r.outcome.value == None))
  {
    var rows := Loaded(store, o.base, o.first, o.last, ticker);
    LoadedSorted(store, o.base, o.first, o.last, ticker);
    FirstMissingSpec(rows, o.adjustColumns);
    FirstMissingSpec(rows, o.castColumns);
  }

  /**
   * Files found and a column missing: the conversion raises `KeyError` for a
   * column the frame lacks, the split column if that one is missing, before
   * writing anything.
   */
  lemma ConvertMissing(store: Store, ticker: string, o: RawOptions)
    requires Partitioned(store, o.base, ticker)
    requires GetParquetPaths(store, o.base, o.first, o.last, ticker) != []
    requires !ConvertReadable(Loaded(store, o.base, o.first, o.last, ticker), o)
    ensures var r := ConvertPriceToRaw(store, ticker, o);
      var rows := Loaded(store, o.base, o.first, o.last, ticker);
      && r.writes == [] && r.outcome.Raised?
      && r.outcome.error.MissingColumn? && !HasColumn(rows, r.outcome.error.column)
      && (!HasColumn(rows, o.split) ==> r.outcome.error == MissingColumn(o.split))
  {
    var rows := Loaded(store, o.base, o.first, o.last, ticker);
    FirstMissingSpec(rows, o.adjustColumns);
    FirstMissingSpec(rows, o.castColumns);
  }

  /** A conversion that raises `KeyError` has written nothing. */
  lemma ConvertKeyErrorWritesNothing(store: Store, ticker: string, o: RawOptions)
    requires Partitioned(store, o.base, ticker)
    ensures var r := ConvertPriceToRaw(store, ticker, o);
      r.outcome.Raised? && r.outcome.error.MissingColumn? ==> r.writes == []
  {
    var rows := Loaded(store, o.base, o.first, o.last, ticker);
    var paths := GetParquetPaths(store, o.base, o.first, o.last, ticker);
    if paths != [] {
      if ConvertReadable(rows, o) {
        ConvertReads(store, ticker, o);
        SaveAsWrittenErrors(ToRawSeries(rows, o.adjustColumns, o.split, o.removeFactors), o.exportBase, ticker, paths);
      } else {
        ConvertMissing(store, ticker, o);
      }
    }
  }

  /**
   * How the conversion ends. With no file it returns `None` and writes
   * nothing. A missing column raises `KeyError` before anything is written,
   * naming a column the frame lacks (the split column when that one is
   * missing). Otherwise it raises exactly when `save_data` is set and the
   * save loop as written raises, with the `IndexError` or `ValueError` of
   * that loop. Without `save_data` nothing is ever written, and with a
   * four-segment base the save loop never raises.
   */
  lemma ConvertOutcome(store: Store, ticker: string, o: RawOptions)
    requires Partitioned(store, o.base, ticker)
    ensures var r := ConvertPriceToRaw(store, ticker, o);
      var rows := Loaded(store, o.base, o.first, o.last, ticker);
      var paths := GetParquetPaths(store, o.base, o.first, o.last, ticker);
      && (paths == [] ==> r == Run([], Returned(None)))
      && (!o.saveData ==> r.writes == [])
      && (paths != [] && !ConvertReadable(rows, o) ==>
            && r.outcome.Raised? && r.writes == [] && r.outcome.error.MissingColumn?
            && !HasColumn(rows, r.outcome.error.column))
      && (paths != [] && !HasColumn(rows, o.split) ==> r == Run([], Raised(MissingColumn(o.split))))
      && (r.outcome.Raised? && ConvertReadable(rows, o) ==>
            && paths != [] && o.saveData
            && (r.outcome.error.SegmentMissing? || r.outcome.error.NotAnInteger?))
      && (r.outcome.Raised? <==>
            paths != [] && (!ConvertReadable(rows, o)
                            || (o.saveData && Ascending(rows)
                                && SaveAsWritten(ToRawSeries(rows, o.adjustColumns, o.split, o.removeFactors),
                                                 o.exportBase, ticker, paths).outcome.Raised?)))
      && (|Split(o.base)| == 4 && '/' !in ticker ==> (r.outcome.Raised? <==> paths != [] && !ConvertReadable(rows, o)))
  {
    var rows := Loaded(store, o.base, o.first, o.last, ticker);
    var paths := GetParquetPaths(store, o.base, o.first, o.last, ticker);
    if paths != [] {
      if ConvertReadable(rows, o) {
        ConvertReads(store, ticker, o);
        var raw := ToRawSeries(rows, o.adjustColumns, o.split, o.removeFactors);
        SaveAsWrittenErrors(raw, o.exportBase, ticker, paths);
        if o.saveData && |Split(o.base)| == 4 && '/' !in ticker {
          SaveAgrees(raw, o.base, o.exportBase, ticker, FoundParts(store, o.base, o.first, o.last, ticker));
        }
      } else {
        ConvertMissing(store, ticker, o);
      }
    }
  }

  /**
   * Without `save_data` a successful conversion writes nothing and returns
   * the raw series of the loaded frame: oldest first, one row per loaded
   * row with its timestamp, each in a month whose file was found.
   */
  lemma ConvertInMemory(store: Store, ticker: string, o: RawOptions)
    requires Partitioned(store, o.base, ticker) && !o.saveData
    requires GetParquetPaths(store, o.base, o.first, o.last, ticker) != []
    requires ConvertReadable(Loaded(store, o.base, o.first, o.last, ticker), o)
    ensures var rows := Loaded(store, o.base, o.first, o.last, ticker);
      var r := ConvertPriceToRaw(store, ticker, o);
      && Ascending(rows)
      && r == Run([], Returned(Some(ToRawSeries(rows, o.adjustColumns, o.split, o.removeFactors))))
      && var raw := r.outcome.value.value;
         && Ascending(raw) && |raw| == |rows|
         && (forall i :: 0 <= i < |raw| ==> raw[i].ts == rows[i].ts)
         && (forall i :: 0 <= i < |raw| ==> PartOf(raw[i].ts) in FoundParts(store, o.base, o.first, o.last, ticker))
  {
    LoadedSorted(store, o.base, o.first, o.last, ticker);
    ConvertReads(store, ticker, o);
  }

  /**
   * With a base path of four segments (`/data/prices/daily`, say) the save
   * loop as written reads each file's month back from its path, so a
   * successful conversion with `save_data` writes the month files of the
   * corrected save and returns `None`.
   */
  lemma ConvertFourSegmentBase(store: Store, ticker: string, o: RawOptions)
    requires Partitioned(store, o.base, ticker) && o.saveData
    requires GetParquetPaths(store, o.base, o.first, o.last, ticker) != []
    requires ConvertReadable(Loaded(store, o.base, o.first, o.last, ticker), o)
    requires |Split(o.base)| == 4 && '/' !in ticker
    ensures var rows := Loaded(store, o.base, o.first, o.last, ticker);
      && Ascending(rows)
      && ConvertPriceToRaw(store, ticker, o)
         == Run(SaveByPartition(ToRawSeries(rows, o.adjustColumns, o.split, o.removeFactors), o.exportBase, ticker,
                                FoundParts(store, o.base, o.first, o.last, ticker)),
                Returned(None))
  {
    ConvertReads(store, ticker, o);
    var rows := Loaded(store, o.base, o.first, o.last, ticker);
    var raw := ToRawSeries(rows, o.adjustColumns, o.split, o.removeFactors);
    SaveAgrees(raw, o.base, o.exportBase, ticker, FoundParts(store, o.base, o.first, o.last, ticker));
  }

  /**
   * With `save_data` and a four-segment base, a successful conversion
   * returns `None` after writing one file per month found, under the export
   * base: each holds exactly the raw rows of its month, no two share a
   * path, and reading the files back in order gives the whole raw series.
   */
  lemma ConvertSaves(store: Store, ticker: string, o: RawOptions)
    requires Partitioned(store, o.base, ticker) && o.saveData
    requires GetParquetPaths(store, o.base, o.first, o.last, ticker) != []
    requires ConvertReadable(Loaded(store, o.base, o.first, o.last, ticker), o)
    requires |Split(o.base)| == 4 && '/' !in ticker
    ensures var rows := Loaded(store, o.base, o.first, o.last, ticker);
      var ps := FoundParts(store, o.base, o.first, o.last, ticker);
      var r := ConvertPriceToRaw(store, ticker, o);
      && Ascending(rows)
      && var raw := ToRawSeries(rows, o.adjustColumns, o.split, o.removeFactors);
         && r.outcome == Returned(None)
         && |r.writes| == |ps|
         && (forall k :: 0 <= k < |ps| ==> r.writes[k].path == PathOf(o.exportBase, ticker, ps[k]))
         && (forall k :: 0 <= k < |ps| ==> forall x :: x in r.writes[k].rows <==> x in raw && PartOf(x.ts) == ps[k])
         && (forall k, l :: 0 <= k < l < |ps| ==> r.writes[k].path != r.writes[l].path)
         && SavedRows(r.writes) == raw
  {
    var rows := Loaded(store, o.base, o.first, o.last, ticker);
    var ps := FoundParts(store, o.base, o.first, o.last, ticker);
    ParquetPaths(store, o.base, o.first, o.last, ticker);
    ConvertFourSegmentBase(store, ticker, o);
    RawInFoundParts(store, ticker, o);
    var raw := ToRawSeries(rows, o.adjustColumns, o.split, o.removeFactors);
    SavedFrame(raw, o.exportBase, ticker, ps);
  }

  /** Each row of the raw series lies in a month whose file was found. */
  lemma RawInFoundParts(store: Store, ticker: string, o: RawOptions)
    requires Partitioned(store, o.base, ticker)
    requires ConvertReadable(Loaded(store, o.base, o.first, o.last, ticker), o)
    ensures var rows := Loaded(store, o.base, o.first, o.last, ticker);
      && Ascending(rows)
      && var raw := ToRawSeries(rows, o.adjustColumns, o.split, o.removeFactors);
         forall i :: 0 <= i < |raw| ==> PartOf(raw[i].ts) in FoundParts(store, o.base, o.first, o.last, ticker)
  {
    var rows := Loaded(store, o.base, o.first, o.last, ticker);
    LoadedSorted(store, o.base, o.first, o.last, ticker);
    var raw := ToRawSeries(rows, o.adjustColumns, o.split, o.removeFactors);
    forall i | 0 <= i < |raw| ensures PartOf(raw[i].ts) in FoundParts(store, o.base, o.first, o.last, ticker) {
      assert raw[i].ts == rows[i].ts;
    }
  }

  /**
   * The discrepancy at the level of the public function. With `save_data`
   * and a base of at most two segments (`data/prices`, say) the conversion
   * raises `IndexError` on the first path and writes nothing; with a base of
   * three segments (`/data/prices`) it raises `ValueError` on the file name.
   */
  lemma ConvertShortBaseRaises(store: Store, ticker: string, o: RawOptions)
    requires Partitioned(store, o.base, ticker) && o.saveData
    requires GetParquetPaths(store, o.base, o.first, o.last, ticker) != []
    requires ConvertReadable(Loaded(store, o.base, o.first, o.last, ticker), o)
    requires |Split(o.base)| <= 3 && '/' !in ticker
    ensures var paths := GetParquetPaths(store, o.base, o.first, o.last, ticker);
      && (|Split(o.base)| <= 2 ==> ConvertPriceToRaw(store, ticker, o) == Run([], Raised(SegmentMissing(paths[0]))))
      && (|Split(o.base)| == 3 ==> ConvertPriceToRaw(store, ticker, o) == Run([], Raised(NotAnInteger(ticker + ".parquet"))))
  {
    ConvertReads(store, ticker, o);
    var rows := Loaded(store, o.base, o.first, o.last, ticker);
    var raw := ToRawSeries(rows, o.adjustColumns, o.split, o.removeFactors);
    var ps := FoundParts(store, o.base, o.first, o.last, ticker);
    if |Split(o.base)| <= 2 {
      SaveAsWrittenShortBase(raw, o.base, o.exportBase, ticker, ps);
    } else {
      SaveAsWrittenThreeSegmentBase(raw, o.base, o.exportBase, ticker, ps);
    }
  }

  // ---------------------------------------------------------------------------
  // adjust_price (lines 191-239).
  // ---------------------------------------------------------------------------

  /** No close of the loaded frame is 0 (pandas would divide by it on line 235). */
  predicate ClosesNonZero(rows: seq<Row>) {
    forall i :: 0 <= i < |rows| && CloseColumn in rows[i].values ==> rows[i].values[CloseColumn] != 0.0
  }

  /** Everything the adjustment reads is there. */
  predicate AdjustReadable(rows: seq<Row>, o: AdjustOptions) {
    && HasColumn(rows, o.split) && Adjustable(rows, o.adjustColumns)
    && HasColumn(rows, DividendsColumn) && HasColumn(rows, CloseColumn)
  }

  /**
   * Lines 212-239. No file: return `None`. Otherwise load the files; read
   * the split column (line 226), the adjust columns in order (line 231),
   * `dividends` (line 234) and `close` (line 235), raising for the first
   * missing one; return the adjusted series, newest first.
   */
  function AdjustPrice(store: Store, ticker: string, o: AdjustOptions): Outcome<Option<seq<Row>>>
    requires Partitioned(store, o.base, ticker)
    requires ClosesNonZero(Loaded(store, o.base, o.first, o.last, ticker))
  {
    var ps := FoundParts(store, o.base, o.first, o.last, ticker);
    if |ps| == 0 then Returned(None)
    else
      var rows := Loaded(store, o.base, o.first, o.last, ticker);
      if !HasColumn(rows, o.split) then Raised(MissingColumn(o.split))
      else match FirstMissing(rows, o.adjustColumns)
        case Some(c) => Raised(MissingColumn(c))
        case None =>
          if !HasColumn(rows, DividendsColumn) then Raised(MissingColumn(DividendsColumn))
          else if !HasColumn(rows, CloseColumn) then Raised(MissingColumn(CloseColumn))
          else
            LoadedSorted(store, o.base, o.first, o.last, ticker);
            FirstMissingSpec(rows, o.adjustColumns);
            Returned(Some(AdjustSeries(rows, o.adjustColumns, o.split)))
  }

  /**
   * The adjustment raises exactly when files were found and a column it
   * reads is missing, naming a column the frame lacks; with no file it
   * returns `None`; otherwise it returns the adjusted series, newest first,
   * one row per loaded row with the timestamps in reverse.
   */
  lemma AdjustOutcome(store: Store, ticker: string, o: AdjustOptions)
    requires Partitioned(store, o.base, ticker)
    requires ClosesNonZero(Loaded(store, o.base, o.first, o.last, ticker))
    ensures var r := AdjustPrice(store, ticker, o);
      var rows := Loaded(store, o.base, o.first, o.last, ticker);
      var paths := GetParquetPaths(store, o.base, o.first, o.last, ticker);
      && (paths == [] ==> r == Returned(None))
      && (r.Raised? <==> paths != [] && !AdjustReadable(rows, o))
      && (r.Raised? ==> r.error.MissingColumn? && !HasColumn(rows, r.error.column))
      && (r.Returned? && r.value.Some? ==>
            var s := r.value.value;
            && Descending(s) && |s| == |rows|
            && forall j :: 0 <= j < |s| ==> s[j].ts == rows[|rows| - 1 - j].ts)
  {
    var rows := Loaded(store, o.base, o.first, o.last, ticker);
    ParquetPaths(store, o.base, o.first, o.last, ticker);
    FirstMissingSpec(rows, o.adjustColumns);
  }

  /**
   * A successful adjustment is the adjustment of the loaded frame, which is
   * sorted oldest first and priced (a dividend and a non-zero close on
   * every row).
   */
  lemma AdjustReturns(store: Store, ticker: string, o: AdjustOptions)
    requires Partitioned(store, o.base, ticker)
    requires ClosesNonZero(Loaded(store, o.base, o.first, o.last, ticker))
    requires GetParquetPaths(store, o.base, o.first, o.last, ticker) != []
    requires AdjustReadable(Loaded(store, o.base, o.first, o.last, ticker), o)
    ensures var rows := Loaded(store, o.base, o.first, o.last, ticker);
      && Ascending(rows) && Priced(rows)
      && AdjustPrice(store, ticker, o) == Returned(Some(AdjustSeries(rows, o.adjustColumns, o.split)))
  {
    var rows := Loaded(store, o.base, o.first, o.last, ticker);
    ParquetPaths(store, o.base, o.first, o.last, ticker);
    LoadedSorted(store, o.base, o.first, o.last, ticker);
    FirstMissingSpec(rows, o.adjustColumns);
  }

  // ---------------------------------------------------------------------------
  // The batch forms (lines 114-146 and 242-262).
  // ---------------------------------------------------------------------------

  /** Every listed ticker's files are in the layout the save loop writes. */
  ghost predicate AllPartitioned(store: Store, base: string, tickers: seq<string>) {
    forall k :: 0 <= k < |tickers| ==> Partitioned(store, base, tickers[k])
  }

  /** The single conversion of each ticker, in list order. */
  function ConvertRuns(store: Store, tickers: seq<string>, o: RawOptions): (r: seq<Run<Row, Option<seq<Row>>>>)
    requires AllPartitioned(store, o.base, tickers)
    ensures |r| == |tickers|
  {
    seq(|tickers|, k requires 0 <= k < |tickers| && Partitioned(store, o.base, tickers[k]) => ConvertPriceToRaw(store, tickers[k], o))
  }

  /**
   * Lines 138-146: convert each ticker in turn (an exception ends the batch,
   * keeping the files already written), then return the list of results
   * without `save_data` and `None` with it.
   */
  function ConvertPriceToRawMultiple(store: Store, tickers: seq<string>, o: RawOptions): Run<Row, Option<seq<Option<seq<Row>>>>>
    requires AllPartitioned(store, o.base, tickers)
  {
    var r := RunAll(ConvertRuns(store, tickers, o));
    match r.outcome
    case Raised(e) => Run(r.writes, Raised(e))
    case Returned(vs) => Run(r.writes, Returned(if o.saveData then None else Some(vs)))
  }

  /**
   * When every ticker's conversion returns, the batch returns too: the
   * single results in ticker order without `save_data` (and then no file is
   * written), `None` with it; the files are those of every ticker, ticker
   * after ticker.
   */
  lemma ConvertMultipleReturns(store: Store, tickers: seq<string>, o: RawOptions)
    requires AllPartitioned(store, o.base, tickers)
    requires forall k :: 0 <= k < |tickers| ==> ConvertPriceToRaw(store, tickers[k], o).outcome.Returned?
    ensures var r := ConvertPriceToRawMultiple(store, tickers, o);
      && r.outcome.Returned?
      && r.writes == AllWrites(ConvertRuns(store, tickers, o))
      && (o.saveData ==> r.outcome.value == None)
      && (!o.saveData ==>
            && r.writes == []
            && r.outcome.value.Some? && |r.outcome.value.value| == |tickers|
            && forall k :: 0 <= k < |tickers| ==> r.outcome.value.value[k] == ConvertPriceToRaw(store, tickers[k], o).outcome.value)
  {
    var runs := ConvertRuns(store, tickers, o);
    RunAllOutcome(runs);
    CollectSpec(Outcomes(runs));
    RunAllSpec(runs);
    if !o.saveData {
      forall k | 0 <= k < |runs| ensures runs[k].writes == [] {
        ConvertOutcome(store, tickers[k], o);
      }
      AllWritesEmpty(runs);
    }
  }

  /**
   * When the batch raises, it raises the exception of a ticker whose
   * conversion raises and before which every conversion returns, having
   * written the files of the tickers before it and those the failing one
   * wrote before raising (none when a column was missing).
   */
  lemma ConvertMultipleRaises(store: Store, tickers: seq<string>, o: RawOptions)
    requires AllPartitioned(store, o.base, tickers)
    requires ConvertPriceToRawMultiple(store, tickers, o).outcome.Raised?
    ensures var r := ConvertPriceToRawMultiple(store, tickers, o);
      exists k :: 0 <= k < |tickers|
                  && ConvertPriceToRaw(store, tickers[k], o).outcome == Raised(r.outcome.error)
                  && (forall j :: 0 <= j < k ==> ConvertPriceToRaw(store, tickers[j], o).outcome.Returned?)
                  && r.writes == AllWrites(ConvertRuns(store, tickers, o)[..k]) + ConvertPriceToRaw(store, tickers[k], o).writes
                  && (r.outcome.error.MissingColumn? ==> ConvertPriceToRaw(store, tickers[k], o).writes == [])
  {
    var runs := ConvertRuns(store, tickers, o);
    RunAllFirstFailure(runs);
    var k :| 0 <= k < |runs| && runs[k].outcome == Raised(RunAll(runs).outcome.error)
             && (forall j :: 0 <= j < k ==> runs[j].outcome.Returned?)
             && RunAll(runs).writes == AllWrites(runs[..k]) + runs[k].writes;
    ConvertRunsAt(store, tickers, o, k);
    ConvertKeyErrorWritesNothing(store, tickers[k], o);
    forall j | 0 <= j < k ensures ConvertPriceToRaw(store, tickers[j], o).outcome.Returned? {
      ConvertRunsAt(store, tickers, o, j);
    }
  }

  /** The k-th run of a batch conversion is the conversion of the k-th ticker. */
  lemma ConvertRunsAt(store: Store, tickers: seq<string>, o: RawOptions, k: int)
    requires AllPartitioned(store, o.base, tickers) && 0 <= k < |tickers|
    ensures ConvertRuns(store, tickers, o)[k] == ConvertPriceToRaw(store, tickers[k], o)
  {
  }

  /** The loaded frame of every listed ticker has no zero close. */
  ghost predicate AllClosesNonZero(store: Store, tickers: seq<string>, o: AdjustOptions) {
    forall k :: 0 <= k < |tickers| ==> ClosesNonZero(Loaded(store, o.base, o.first, o.last, tickers[k]))
  }

  /** The single adjustment of each ticker, in list order. */
  function AdjustOutcomes(store: Store, tickers: seq<string>, o: AdjustOptions): (r: seq<Outcome<Option<seq<Row>>>>)
    requires AllPartitioned(store, o.base, tickers) && AllClosesNonZero(store, tickers, o)
    ensures |r| == |tickers|
  {
    seq(|tickers|, k requires 0 <= k < |tickers| && Partitioned(store, o.base, tickers[k])
                              && ClosesNonZero(Loaded(store, o.base, o.first, o.last, tickers[k]))
                   => AdjustPrice(store, tickers[k], o))
  }

  /**
   * Lines 248-262: adjust each ticker in turn (an exception ends the
   * batch), then return the list of results without `save_result` and
   * `None` with it.
   */
  function AdjustPriceMultiple(store: Store, tickers: seq<string>, o: AdjustOptions): Outcome<Option<seq<Option<seq<Row>>>>>
    requires AllPartitioned(store, o.base, tickers) && AllClosesNonZero(store, tickers, o)
  {
    match Collect(AdjustOutcomes(store, tickers, o))
    case Raised(e) => Raised(e)
    case Returned(vs) => Returned(if o.saveResult then None else Some(vs))
  }

  /**
   * The batch returns exactly when every ticker's adjustment returns, with
   * the single results in ticker order unless `save_result` is set; it
   * otherwise raises the first failing ticker's exception.
   */
  lemma AdjustMultipleSpec(store: Store, tickers: seq<string>, o: AdjustOptions)
    requires AllPartitioned(store, o.base, tickers) && AllClosesNonZero(store, tickers, o)
    ensures var r := AdjustPriceMultiple(store, tickers, o);
      && (r.Returned? <==> forall k :: 0 <= k < |tickers| ==> AdjustPrice(store, tickers[k], o).Returned?)
      && (r.Returned? && o.saveResult ==> r.value == None)
      && (r.Returned? && !o.saveResult ==>
            && r.value.Some? && |r.value.value| == |tickers|
            && forall k :: 0 <= k < |tickers| ==> r.value.value[k] == AdjustPrice(store, tickers[k], o).value)
      && (r.Raised? ==>
            exists k :: 0 <= k < |tickers| && AdjustPrice(store, tickers[k], o) == Raised(r.error)
                        && forall j :: 0 <= j < k ==> AdjustPrice(store, tickers[j], o).Returned?)
  {
    var outs := AdjustOutcomes(store, tickers, o);
    CollectSpec(outs);
    forall k | 0 <= k < |tickers| ensures outs[k] == AdjustPrice(store, tickers[k], o) {
      AdjustOutcomesAt(store, tickers, o, k);
    }
  }

  /** The k-th outcome of a batch adjustment is the adjustment of the k-th ticker. */
  lemma AdjustOutcomesAt(store: Store, tickers: seq<string>, o: AdjustOptions, k: int)
    requires AllPartitioned(store, o.base, tickers) && AllClosesNonZero(store, tickers, o)
    requires 0 <= k < |tickers|
    ensures AdjustOutcomes(store, tickers, o)[k] == AdjustPrice(store, tickers[k], o)
  {
  }
}
