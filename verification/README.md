# Price adjustment pipeline — a Dafny model

This project models the price-processing core of a Thai stock data
collector. The stock files live in a partitioned store, one parquet file
per ticker and calendar month at `base/{year}/{MM}/{ticker}.parquet`. The
model covers:

- `get_parquet_paths`: lists a ticker's files for a range of years.
- `convert_price_to_raw`: turns split-adjusted prices back into raw prices.
  It multiplies the adjust columns by the cumulative split factor of later
  splits, then optionally saves the result one file per month. The save
  loop is modelled as written, including the path parsing that fails for
  most base paths (see "## Findings"). The intended save is modelled
  beside it.
- `adjust_price`: divides by the same factors, then adjusts the close for
  dividends through the running product of retention rates.
- `convert_price_to_raw_multiple` and `adjust_price_multiple`: the batch
  forms of the two functions above.
- `ThaiGovDataReader._get_latest_update_annual`: keeps, for each year found
  in a list of download URLs, the first URL of that year.

The model is functional Dafny:

- Prices are `real`. A row is an index timestamp with a map from column
  names to values.
- The file store is a map from paths to rows: a path exists when it is a
  key, and reading a file is a lookup. A call returns a `Run`, which holds
  the files it wrote, in order, and its outcome. The outcome is either a
  returned value or a raised exception: `KeyError` for a missing column,
  `IndexError` or `ValueError` from path parsing, `AssertionError`.
- Regular-expression matching is foreign. Its first match on a URL is a
  function parameter, `None` when the URL has no match.

The modules follow the program:

- `Frame`, `Factors`, `Columns` and `Dividends` cover the column arithmetic.
- `Transforms` covers the two transforms on an in-memory frame, and proves
  that each one undoes the other's split step.
- `Partitions` covers paths, loading, and re-partitioning on save.
- `Pipeline` and `Batch` cover the public functions.
- `ThaiGov` covers the URL de-duplication.
- `Text` holds the string handling the paths need: `split('/')`, `str(int)`,
  `'{:02d}'` and `int()`.

## Model

| member | source | states |
|---|---|---|
| Factors.AdjustFactor | functions/data_processor.py:79-80 | `adjust_factor` is never 0; it is 1 exactly when the split value is 0 or 1, and equals the split value whenever that is non-zero |
| Factors.CumAdjFactors | functions/data_processor.py:81-82 | `cum_adj_factor` has one entry per row, is 1 on the newest row and is never 0 |
| Factors.CumAdjFactorsIsProd | functions/data_processor.py:81-82 | entry i of `cumprod().shift(1).fillna(1)` is the product of `adjust_factor` over newest-first rows 0..i-1 |
| Factors.CumAdjFactorsExample | functions/data_processor.py:81-82 | split values 1, 1, 2, 1 (newest first) give cumulative factors 1, 1, 1, 2 |
| Factors.NoSplitsNoFactor | functions/data_processor.py:79-82 | with no split anywhere (every value 0 or 1), every cumulative factor is 1 |
| Frame.ReverseFlipsOrder | functions/data_processor.py:78 | an oldest-first frame, reversed, is newest first, and the other way round, so the descending sort of a loaded frame is its reversal |
| Frame.CumProdIsProd | functions/data_processor.py:236 | position i of `cumprod()` is the product of positions 0..i, with no shift |
| Frame.Shift | functions/data_processor.py:234 | `shift(1).fillna(x)` has the same length, holds x first, and holds the previous element everywhere else |
| Frame.ProdReverse | functions/data_processor.py:81-82 | a product does not depend on the order of its factors, so a newest-first product equals an oldest-first one |
| Columns.MultiplyColumnsAt | functions/data_processor.py:84-85 | after the multiply loop, a column holds its old value multiplied by the factor once per time it is listed; an unlisted column keeps its value |
| Columns.MultiplyColumnsUnlisted | functions/data_processor.py:84-85 | a column not in `adjust_cols` (the split column, say) keeps its value through the multiply loop |
| Columns.DivideColumnsAt | functions/data_processor.py:230-231 | after the divide loop, a column holds its old value divided by the factor once per time it is listed |
| Columns.DivideColumnsUnlisted | functions/data_processor.py:230-231 | a column not in `adjust_cols` keeps its value through the divide loop |
| Columns.DivideColumnsNonZero | functions/data_processor.py:230-231 | dividing by a non-zero factor never turns a non-zero value (a close) into 0 |
| Columns.DivideInvertsMultiply | functions/data_processor.py:230-231 | on a row whose factor column is not listed, dividing after multiplying restores the row exactly, and so does multiplying after dividing |
| Columns.ScaleRoundTrip | functions/data_processor.py:230-231 | n divisions by a non-zero factor undo n multiplications by it, and the other way round |
| Columns.ScaledIsPow | functions/data_processor.py:84-85 | multiplying n times by f is multiplying by f to the power n |
| Columns.UnscaledIsQuotient | functions/data_processor.py:230-231 | dividing n times by f is dividing by f to the power n |
| Dividends.DividendRowRetention | functions/data_processor.py:234-235 | `fwd_div` is 0 on the newest row and the next newer row's dividend elsewhere; `retention_rate` is 1 - `fwd_div`/`close` |
| Dividends.DividendRowAccum | functions/data_processor.py:236-237 | `accum_retention` of row i is the product of the retention rates of rows 0..i, row i included; `adj_close` is `accum_retention` times `close` |
| Dividends.AccumRetentionStep | functions/data_processor.py:236 | `accum_retention` is 1 on the newest row, and each older row multiplies its own rate onto the previous row's value |
| Dividends.DividendRowKeys | functions/data_processor.py:234-237 | the dividend stage adds exactly its four columns to each row |
| Dividends.DividendRowKeeps | functions/data_processor.py:234-237 | every other column keeps its value |
| Dividends.NoDividendsNoAdjustment | functions/data_processor.py:234-237 | with no dividends every `accum_retention` is 1 and `adj_close` equals `close` |
| Dividends.DividendExample | functions/data_processor.py:234-237 | a dividend of 1 on the newer row (close 100) gives the older row (close 101) a retention rate of 100/101 and an adjusted close of 100 |
| Transforms.CumAdjIsLaterSplits | functions/data_processor.py:78-82 | computed newest first, a row's `cum_adj_factor` is the product of the adjust factors of every later row |
| Transforms.ToRawSeries | functions/data_processor.py:78-94 | the raw series has the input's rows with their timestamps, and is sorted oldest first again |
| Transforms.RawScaled | functions/data_processor.py:84-85 | each adjust column of the raw series is the input value times the product of the later splits, once per time it is listed |
| Transforms.RawUnlisted | functions/data_processor.py:84-87 | a column outside `adjust_cols` (the split column included) keeps its value |
| Transforms.RawFactorColumns | functions/data_processor.py:93-94 | when kept, the factor columns hold the row's own factor and the product of the later splits; when removed, they are gone; no other column appears or disappears |
| Transforms.AdjustSeries | functions/data_processor.py:223-239 | `adjust_price` returns one row per input row, timestamps reversed, sorted newest first: nothing sorts it back |
| Transforms.AdjustedScaled | functions/data_processor.py:226-231 | each adjust column `adjust_price` returns is the input value divided by the product of the later splits, once per time it is listed |
| Transforms.AdjustedDividends | functions/data_processor.py:234-237 | `fwd_div` is the split-divided dividend of the next newer row (0 on the newest); `adj_close` is the divided close times the running product of retention rates |
| Transforms.RawThenDivide | functions/data_processor.py:230-231 | dividing the raw series by the recomputed factors gives back the input with its factor columns, row for row |
| Transforms.DivideThenRaw | functions/data_processor.py:84-85 | multiplying the split-divided frame by the recomputed factors gives back the input without factor columns |
| Partitions.ParquetPaths | functions/data_processor.py:29-44 | the paths are `base/{year}/{MM}/{ticker}.parquet` of existing files only, in ascending (year, month) order, every existing month of the range is included, and there are at most 12 per year |
| Partitions.ExistingSpec | functions/data_processor.py:38-43 | a month is kept exactly when its file exists, and order is preserved |
| Partitions.PartsLength | functions/data_processor.py:30-31 | the two loops visit 12 months per year of the range, none for an empty range |
| Partitions.PathSegments | functions/data_processor.py:34-38 | a path splits on `/` into the base's segments, the year, the two-digit month and the file name |
| Partitions.PathOfInjective | functions/data_processor.py:34-38 | different months of one ticker have different paths |
| Partitions.LoadAscending | functions/data_processor.py:78 | reading the files of ascending months from a store in the saved layout gives an oldest-first frame |
| Partitions.FilterMembers | functions/data_processor.py:101-102 | a row is in a month's slice exactly when it is in the frame and its index year and month are that month's |
| Partitions.FilterAscending | functions/data_processor.py:101-102 | the month's slice of a sorted frame is sorted |
| Partitions.SavePartitions | functions/data_processor.py:97-110 | one file per found month, at that month's export path; no two files share a path or a row; every row of a found month is written to its month's file |
| Partitions.SaveThenLoad | functions/data_processor.py:97-110 | reading the saved files back in month order gives the saved frame |
| Partitions.SaveAgrees | functions/data_processor.py:98-110 | with a four-segment base path the loop as written saves exactly one file per month, as intended |
| Partitions.SaveAsWrittenErrors | functions/data_processor.py:99-101 | the save loop as written raises nothing but the `IndexError` of a missing segment and the `ValueError` of `int()` |
| Partitions.ExampleBases | functions/data_processor.py:99 | `data/prices` splits on `/` into two segments and `/data/prices` into three |
| Partitions.SaveAsWrittenShortBase | functions/data_processor.py:99-100 | with a base of at most two segments the loop as written raises `IndexError` on the first path and saves nothing |
| Partitions.SaveAsWrittenThreeSegmentBase | functions/data_processor.py:99-102 | with a three-segment base, segment 5 is the file name and `int()` raises `ValueError` on it |
| Text.SplitJoin | functions/data_processor.py:99 | splitting `a/b` on `/` splits `a` and `b` separately |
| Text.DecimalRoundTrip | functions/data_processor.py:101-102 | `int()` reads back the year that line 34 wrote with `str()` |
| Text.MonthRoundTrip | functions/data_processor.py:32 | `int()` reads back the month that `'{:02d}'` wrote |
| Batch.CollectSpec | functions/data_processor.py:248-259 | a list comprehension over raising calls returns exactly when every call returns, with their values in order; otherwise it raises the first failure |
| Batch.RunAllOutcome | functions/data_processor.py:138-143 | a batch of writing calls ends as the list comprehension of their outcomes does |
| Batch.RunAllFirstFailure | functions/data_processor.py:138-143 | a raising batch keeps the files of the calls before the first failing one, then the files that call wrote before raising |
| Batch.RunAllSpec | functions/data_processor.py:138-143 | the batch keeps the files of every call up to and including the first that raises |
| Pipeline.DefaultColumnsDisjoint | functions/data_processor.py:49 | the default `adjust_cols` hold no factor column, no column twice, and not the default split column |
| Pipeline.LoadedSorted | functions/data_processor.py:78 | the loaded frame is oldest first, and each row lies in a month whose file was found |
| Pipeline.FirstMissingSpec | functions/data_processor.py:84-85 | the loop raises `KeyError` exactly when a listed column is missing, naming the first such column |
| Pipeline.ConvertOutcome | functions/data_processor.py:66-110 | no file: `None` and no writes; a missing split, adjust or cast column raises `KeyError` before any write, the split column checked first; otherwise it raises exactly when `save_data` is set and the save loop raises its `IndexError` or `ValueError`; without `save_data` nothing is written; with a four-segment base only a missing column raises |
| Pipeline.ConvertKeyErrorWritesNothing | functions/data_processor.py:79-91 | a conversion that raises `KeyError` has written no file |
| Pipeline.ConvertInMemory | functions/data_processor.py:111-112 | without `save_data` the call writes nothing and returns the raw series of the loaded frame |
| Pipeline.ConvertFourSegmentBase | functions/data_processor.py:97-110 | with a four-segment base, a successful conversion with `save_data` writes exactly the files of the intended per-month save and returns `None` |
| Pipeline.ConvertSaves | functions/data_processor.py:97-110 | with `save_data` and a four-segment base it returns `None` after writing one file per found month under the export base, each holding exactly that month's raw rows, at distinct paths; read back in order they give the whole raw series |
| Pipeline.ConvertShortBaseRaises | functions/data_processor.py:99-101 | with `save_data`, a base of at most two segments makes the conversion raise `IndexError` on the first path, and a three-segment base makes it raise `ValueError` on the file name, in both cases before writing anything |
| Pipeline.AdjustOutcome | functions/data_processor.py:212-239 | no file: `None`; raises exactly when a column it reads is missing; otherwise the result is newest first, one row per loaded row |
| Pipeline.AdjustReturns | functions/data_processor.py:223-239 | a successful adjustment is the adjusted series of the loaded frame |
| Pipeline.ConvertMultipleReturns | functions/data_processor.py:138-146 | when every conversion returns, the batch returns the results in ticker order without `save_data` and `None` with it, having written every ticker's files |
| Pipeline.ConvertMultipleRaises | functions/data_processor.py:138-143 | when the batch raises, it raises the first failing ticker's exception and keeps the files of the tickers before it, then any the failing ticker wrote before raising (none for a `KeyError`) |
| Pipeline.AdjustMultipleSpec | functions/data_processor.py:248-262 | the batch returns exactly when every adjustment returns: results in order, or `None` with `save_result`; otherwise it raises the first failure |
| ThaiGov.PySliceBounds | functions/thai_gov_data.py:37 | a Python slice with bounds inside the string is that stretch; negative bounds count from the end; crossed bounds give "" |
| ThaiGov.LatestUpdateErrors | functions/thai_gov_data.py:35-37 | the call raises the two `AssertionError`s for a bad `year_index`, and the missing-match error for the first URL without a match; otherwise it returns |
| ThaiGov.LatestUpdateEmpty | functions/thai_gov_data.py:37-44 | an empty URL list gives an empty dict |
| ThaiGov.YearDictInvisible | functions/thai_gov_data.py:37 | de-duplicating the URLs into a dict first changes nothing in the result |
| ThaiGov.LatestIsFirsts | functions/thai_gov_data.py:39-42 | the loop keeps exactly the first entry of each year, in order (the reference definition `Firsts`) |
| ThaiGov.LatestUpdateIsFirsts | functions/thai_gov_data.py:34-44 | the result is the reference definition applied to every URL with its year |
| ThaiGov.LatestUpdateFirstWins | functions/thai_gov_data.py:40-42 | every URL's year has exactly one entry; that entry holds the first URL of the list with that year; no other entry exists |
| ThaiGov.LatestUpdateSize | functions/thai_gov_data.py:37-42 | the dict has no more entries than the list has distinct URLs |
| ThaiGov.LatestUpdateKeys | functions/thai_gov_data.py:37-42 | read as a dict, the keys are exactly the URLs' years |
| ThaiGov.LatestUpdateLookup | functions/thai_gov_data.py:41-42 | each URL's year maps to the first URL of the list with that year |

## Left out

- File I/O is a map from paths to rows. This covers `pd.read_parquet`, `to_parquet` and `os.path.exists`. Writes are returned as (path, rows) pairs.
- The `os.mkdir` calls of lines 104-109 always succeed in the model. The real `os.mkdir(year_path)` raises `FileNotFoundError` when `export_base_path` itself does not exist. That exception is not modelled.
- An empty parquet file is assumed to carry the schema of the others. A column counts as present when every loaded row has it, so a frame with no rows never raises the `KeyError` pandas raises for a column an empty frame lacks.
- The `ticker is None` branch of `get_parquet_paths` (line 36) is a bare directory listing, so it is not modelled.
- The dtype casts (lines 90-91) are modelled only as a read of each `dtype_dict` key, which raises `KeyError` when the column is missing. The cast itself does nothing in the model.
- Non-numeric columns such as `ticker`, and the integer type of `volume`, are not modelled: every column holds a `real`. This is also why a missing `ticker` column counts as missing, but a present one is just another value.
- IEEE floats are not modelled: no rounding, no NaN or infinity, and no `fillna` on NaN split values. Prices are exact reals.
- Pipeline.AdjustPrice: requires every loaded close to be non-zero. With a zero close, pandas divides by zero and yields inf or NaN, which is not modelled.
- Pipeline.ConvertSaves: states the saved files only for a base path of four segments and a ticker without `/`, where the loop as written does what is intended. Bases of at most three segments raise, as Pipeline.ConvertShortBaseRaises states. For bases of five or more segments the model computes what the loop as written does, which reads the base's own segments as year and month. Only Pipeline.ConvertOutcome's general clauses are stated for those bases.
- Pipeline.ConvertPriceToRaw: requires the store to be in the layout the save loop writes: each month's file sorted and holding only that month's rows. The model then takes the loaded frame as already oldest first instead of sorting it. Duplicate timestamps and files out of layout are not modelled. The same holds for Pipeline.AdjustPrice and both batch forms.
- Pipeline.ConvertPriceToRawMultiple: every ticker reads the store as it was before the batch. Under the real file system, a ticker listed twice would read the first run's output when the export base is the base itself.
- `int()` on a path segment accepts an optional sign and decimal digits only. Python also accepts surrounding whitespace and underscores, which the year and month segments never contain.
- The regular expression of `_get_latest_update_annual` is a parameter. It returns the first match of a URL, so `findall` over a pattern with groups, which yields tuples, is not modelled.
- The `export_base_path` and `save_result` parameters of `adjust_price` are never read, and the model carries them unused.
- The rest of `ThaiGovDataReader` (`_get_divs`, `get_tables`, `save`) is HTTP, HTML parsing and Excel/CSV reading. stock_reader.py and thai_stock_scraper.py are scripts around foreign downloaders. They are not part of this model.
- The commented-out loop of lines 148-189 is not modelled.

## Findings

| source | as written | input that shows it | evidently intended | confidence | as-written member | corrected member |
|---|---|---|---|---|---|---|
| functions/data_processor.py:99-100 | the save loop reads year and month from segments 4 and 5 of `path.split('/')`, which are the year and month only when the base path has exactly four segments | base path `data/prices`: a path `data/prices/2024/01/PTT.parquet` has five segments, so segment 5 raises `IndexError` and nothing is saved; with `/data/prices`, `int('PTT.parquet')` raises `ValueError` | one file per found month under `export_base_path/{year}/{MM}/`, whatever the depth of the base path | not executed | Pipeline.ConvertShortBaseRaises | Partitions.SaveByPartition |
