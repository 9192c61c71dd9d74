/**
 * The partitioned price store of functions/data_processor.py: one parquet
 * file per ticker and calendar month at `base/{year}/{MM}/{ticker}.parquet`.
 * The file system is a map from paths to the rows a file holds: a path
 * exists when it is a key, and reading it is a lookup.
 */
module Partitions {
  import opened Common
  import opened Text
  import opened Frame

  /** A calendar month: the partition key of a file. */
  datatype Part = Part(year: int, month: int)

  /** The file store: every existing parquet file with its rows. */
  type Store = map<string, seq<Row>>

  /** The month a timestamp falls in (`index.year`, `index.month`). */
  function PartOf(ts: Stamp): Part {
    Part(ts.year, ts.month)
  }

  /** Calendar order of months. */
  predicate PartBefore(p: Part, q: Part) {
    p.year < q.year || (p.year == q.year && p.month < q.month)
  }

  /** Strictly increasing months. */
  predicate PartsAscending(ps: seq<Part>) {
    forall i, j :: 0 <= i < j < |ps| ==> PartBefore(ps[i], ps[j])
  }

  /** A month the loops of lines 30-31 visit for the year range `first..last`. */
  predicate InRange(p: Part, first: int, last: int) {
    first <= p.year <= last && 1 <= p.month <= 12
  }

  /** Line 34: `f'{base_path}/{year}/{m_str}'` with `m_str = '{:02d}'.format(month)`. */
  function PartDir(base: string, p: Part): string {
    base + "/" + DecimalText(p.year) + "/" + MonthText(p.month)
  }

  /** Line 38: `f'{ym_path}/{ticker}.parquet'`. */
  function PathOf(base: string, ticker: string, p: Part): string {
    PartDir(base, p) + "/" + ticker + ".parquet"
  }

  // ---------------------------------------------------------------------------
  // get_parquet_paths (lines 17-44), with a ticker given.
  // ---------------------------------------------------------------------------

  /** The inner loop of line 31: months 1 to 12 of year `y`. */
  function YearParts(y: int): (r: seq<Part>)
    ensures |r| == 12
  {
    seq(12, k requires 0 <= k < 12 => Part(y, k + 1))
  }

  /** Both loops of lines 30-31: every month of the years `first..last`, year by year. */
  function Parts(first: int, last: int): seq<Part>
    decreases last - first
  {
    if first > last then [] else YearParts(first) + Parts(first + 1, last)
  }

  /** Lines 38-43: the months, in loop order, whose file for `ticker` exists. */
  function Existing(store: Store, base: string, ticker: string, ps: seq<Part>): (r: seq<Part>)
    ensures |r| <= |ps|
    decreases |ps|
  {
    if |ps| == 0 then []
    else (if PathOf(base, ticker, ps[0]) in store then [ps[0]] else []) + Existing(store, base, ticker, ps[1..])
  }

  /** The months `get_parquet_paths` finds a file for. */
  function FoundParts(store: Store, base: string, first: int, last: int, ticker: string): seq<Part> {
    Existing(store, base, ticker, Parts(first, last))
  }

  /** The paths of a list of months, in order. */
  function PathsOf(base: string, ticker: string, ps: seq<Part>): (r: seq<string>)
    ensures |r| == |ps|
  {
    seq(|ps|, k requires 0 <= k < |ps| => PathOf(base, ticker, ps[k]))
  }

  /** Lines 17-44 with a ticker: the existing file paths of the year range, in loop order. */
  function GetParquetPaths(store: Store, base: string, first: int, last: int, ticker: string): seq<string> {
    PathsOf(base, ticker, FoundParts(store, base, first, last, ticker))
  }

  lemma {:induction false} PartsLength(first: int, last: int)
    ensures |Parts(first, last)| == if first <= last then 12 * (last - first + 1) else 0
    decreases last - first
  {
    if first <= last {
      PartsLength(first + 1, last);
    }
  }

  lemma {:induction false} PartsInRange(first: int, last: int)
    ensures forall k :: 0 <= k < |Parts(first, last)| ==> InRange(Parts(first, last)[k], first, last)
    decreases last - first
  {
    if first <= last {
      PartsInRange(first + 1, last);
      var ys := YearParts(first);
      var rest := Parts(first + 1, last);
      forall k | 0 <= k < |ys + rest| ensures InRange((ys + rest)[k], first, last) {
        if k >= 12 {
          assert (ys + rest)[k] == rest[k - 12];
        }
      }
    }
  }

  lemma {:induction false} PartsComplete(first: int, last: int, p: Part)
    requires InRange(p, first, last)
    ensures p in Parts(first, last)
    decreases last - first
  {
    var ys := YearParts(first);
    if p.year == first {
      assert ys[p.month - 1] == p;
      assert (ys + Parts(first + 1, last))[p.month - 1] == p;
    } else {
      PartsComplete(first + 1, last, p);
      var rest := Parts(first + 1, last);
      var k :| 0 <= k < |rest| && rest[k] == p;
      assert (ys + rest)[k + 12] == p;
    }
  }

  /** Two ascending month lists, the first entirely before the second, concatenate to one. */
  lemma AscendingConcat(a: seq<Part>, b: seq<Part>)
    requires PartsAscending(a) && PartsAscending(b)
    requires forall i, j :: 0 <= i < |a| && 0 <= j < |b| ==> PartBefore(a[i], b[j])
    ensures PartsAscending(a + b)
  {
    var c := a + b;
    forall i, j | 0 <= i < j < |c| ensures PartBefore(c[i], c[j]) {
      if j < |a| {
        assert PartBefore(a[i], a[j]);
      } else if i >= |a| {
        assert PartBefore(b[i - |a|], b[j - |a|]);
      } else {
        assert PartBefore(a[i], b[j - |a|]);
      }
    }
  }

  lemma {:induction false} PartsOrdered(first: int, last: int)
    ensures PartsAscending(Parts(first, last))
    decreases last - first
  {
    if first <= last {
      PartsOrdered(first + 1, last);
      PartsInRange(first + 1, last);
      var ys := YearParts(first);
      var rest := Parts(first + 1, last);
      assert forall i, j :: 0 <= i < |ys| && 0 <= j < |rest| ==> PartBefore(ys[i], rest[j]) by {
        forall i, j | 0 <= i < |ys| && 0 <= j < |rest| ensures PartBefore(ys[i], rest[j]) {
          assert InRange(rest[j], first + 1, last);
        }
      }
      AscendingConcat(ys, rest);
    }
  }

  /** What `Existing` keeps: exactly the listed months whose file exists, in their order. */
  lemma {:induction false} ExistingSpec(store: Store, base: string, ticker: string, ps: seq<Part>)
    ensures forall k :: 0 <= k < |Existing(store, base, ticker, ps)| ==>
              var p := Existing(store, base, ticker, ps)[k];
              p in ps && PathOf(base, ticker, p) in store
    ensures forall p :: p in ps && PathOf(base, ticker, p) in store ==> p in Existing(store, base, ticker, ps)
    ensures PartsAscending(ps) ==> PartsAscending(Existing(store, base, ticker, ps))
    decreases |ps|
  {
    if |ps| > 0 {
      var rest := Existing(store, base, ticker, ps[1..]);
      ExistingSpec(store, base, ticker, ps[1..]);
      var head: seq<Part> := if PathOf(base, ticker, ps[0]) in store then [ps[0]] else [];
      assert Existing(store, base, ticker, ps) == head + rest;
      forall p | p in ps && PathOf(base, ticker, p) in store ensures p in head + rest {
        if p != ps[0] {
          var k :| 0 <= k < |ps| && ps[k] == p;
          assert ps[1..][k - 1] == p;
        }
      }
      if PartsAscending(ps) {
        assert PartsAscending(ps[1..]) by {
          forall i, j | 0 <= i < j < |ps[1..]| ensures PartBefore(ps[1..][i], ps[1..][j]) {
            assert PartBefore(ps[i + 1], ps[j + 1]);
          }
        }
        forall i, j | 0 <= i < |head| && 0 <= j < |rest| ensures PartBefore(head[i], rest[j]) {
          var k :| 0 <= k < |ps[1..]| && ps[1..][k] == rest[j];
          assert PartBefore(ps[0], ps[k + 1]);
        }
        AscendingConcat(head, rest);
      }
    }
  }

  /**
   * With a ticker given, `get_parquet_paths` returns, in ascending
   * (year, month) order, the path of every month of the year range whose
   * file exists and nothing else, with at most twelve paths per year.
   */
  lemma ParquetPaths(store: Store, base: string, first: int, last: int, ticker: string)
    ensures var ps := FoundParts(store, base, first, last, ticker);
      var paths := GetParquetPaths(store, base, first, last, ticker);
      && |paths| == |ps|
      && (forall k :: 0 <= k < |ps| ==>
            paths[k] == PathOf(base, ticker, ps[k]) && paths[k] in store && InRange(ps[k], first, last))
      && PartsAscending(ps)
      && (forall p :: InRange(p, first, last) && PathOf(base, ticker, p) in store ==> p in ps)
      && |paths| <= (if first <= last then 12 * (last - first + 1) else 0)
  {
    var all := Parts(first, last);
    var ps := FoundParts(store, base, first, last, ticker);
    PartsLength(first, last);
    PartsInRange(first, last);
    PartsOrdered(first, last);
    ExistingSpec(store, base, ticker, all);
    forall k | 0 <= k < |ps| ensures InRange(ps[k], first, last) {
      var j :| 0 <= j < |all| && all[j] == ps[k];
    }
    forall p | InRange(p, first, last) && PathOf(base, ticker, p) in store ensures p in ps {
      PartsComplete(first, last, p);
    }
  }

  // ---------------------------------------------------------------------------
  // Reading the files (line 78 / 223: `pd.read_parquet(paths)`).
  // ---------------------------------------------------------------------------

  /** The rows of the listed files, file after file. */
  function Load(store: Store, paths: seq<string>): seq<Row>
    requires forall k :: 0 <= k < |paths| ==> paths[k] in store
    decreases |paths|
  {
    if |paths| == 0 then [] else store[paths[0]] + Load(store, paths[1..])
  }

  /**
   * The store holds, for `ticker` under `base`, only sorted files whose rows
   * lie in the file's own month: the layout the save loop produces.
   */
  ghost predicate Partitioned(store: Store, base: string, ticker: string) {
    forall p :: PathOf(base, ticker, p) in store ==>
      && Ascending(store[PathOf(base, ticker, p)])
      && forall i :: 0 <= i < |store[PathOf(base, ticker, p)]| ==> PartOf(store[PathOf(base, ticker, p)][i].ts) == p
  }

  /** In a partitioned store, every row of a month's file is of that month. */
  lemma FileInPart(store: Store, base: string, ticker: string, p: Part)
    requires Partitioned(store, base, ticker) && PathOf(base, ticker, p) in store
    ensures Ascending(store[PathOf(base, ticker, p)])
    ensures forall i :: 0 <= i < |store[PathOf(base, ticker, p)]| ==> PartOf(store[PathOf(base, ticker, p)][i].ts) == p
  {
  }

  /** A row of an earlier month is stamped earlier. */
  lemma PartBeforeStamps(a: Stamp, b: Stamp)
    requires PartBefore(PartOf(a), PartOf(b))
    ensures Before(a, b)
  {
  }

  /** Loading the files of some months of a partitioned store gives rows of those months only. */
  lemma {:induction false} LoadInParts(store: Store, base: string, ticker: string, ps: seq<Part>)
    requires Partitioned(store, base, ticker)
    requires forall k :: 0 <= k < |ps| ==> PathOf(base, ticker, ps[k]) in store
    ensures forall i :: 0 <= i < |Load(store, PathsOf(base, ticker, ps))| ==>
              PartOf(Load(store, PathsOf(base, ticker, ps))[i].ts) in ps
    decreases |ps|
  {
    var paths := PathsOf(base, ticker, ps);
    if |ps| > 0 {
      LoadInParts(store, base, ticker, ps[1..]);
      assert paths[1..] == PathsOf(base, ticker, ps[1..]);
      assert paths[0] == PathOf(base, ticker, ps[0]);
      var file: seq<Row> := store[paths[0]];
      var rest: seq<Row> := Load(store, paths[1..]);
      assert Load(store, paths) == file + rest;
      FileInPart(store, base, ticker, ps[0]);
      forall i | 0 <= i < |file + rest| ensures PartOf((file + rest)[i].ts) in ps {
        if i >= |file| {
          assert (file + rest)[i] == rest[i - |file|];
          var k :| 0 <= k < |ps[1..]| && ps[1..][k] == PartOf(rest[i - |file|].ts);
          assert ps[k + 1] == ps[1..][k];
        } else {
          assert (file + rest)[i] == file[i];
        }
      }
    }
  }

  /** Loading the files of ascending months of a partitioned store gives an ascending frame. */
  lemma {:induction false} LoadAscending(store: Store, base: string, ticker: string, ps: seq<Part>)
    requires Partitioned(store, base, ticker) && PartsAscending(ps)
    requires forall k :: 0 <= k < |ps| ==> PathOf(base, ticker, ps[k]) in store
    ensures Ascending(Load(store, PathsOf(base, ticker, ps)))
    decreases |ps|
  {
    var paths := PathsOf(base, ticker, ps);
    if |ps| > 0 {
      AscendingTail(ps);
      LoadAscending(store, base, ticker, ps[1..]);
      LoadInParts(store, base, ticker, ps[1..]);
      PathsOfCons(base, ticker, ps);
      FileInPart(store, base, ticker, ps[0]);
      var file: seq<Row> := store[PathOf(base, ticker, ps[0])];
      var rest: seq<Row> := Load(store, PathsOf(base, ticker, ps[1..]));
      assert Load(store, paths) == file + rest;
      FileBeforeRest(file, rest, ps);
      AscendingAppend(file, rest);
    }
  }

  /** Rows of the first month come before rows of any later month. */
  lemma FileBeforeRest(file: seq<Row>, rest: seq<Row>, ps: seq<Part>)
    requires PartsAscending(ps) && |ps| > 0
    requires forall i :: 0 <= i < |file| ==> PartOf(file[i].ts) == ps[0]
    requires forall j :: 0 <= j < |rest| ==> PartOf(rest[j].ts) in ps[1..]
    ensures forall i, j :: 0 <= i < |file| && 0 <= j < |rest| ==> Before(file[i].ts, rest[j].ts)
  {
    forall i, j | 0 <= i < |file| && 0 <= j < |rest| ensures Before(file[i].ts, rest[j].ts) {
      var k :| 0 <= k < |ps[1..]| && ps[1..][k] == PartOf(rest[j].ts);
      assert PartBefore(ps[0], ps[k + 1]);
      PartBeforeStamps(file[i].ts, rest[j].ts);
    }
  }

  // ---------------------------------------------------------------------------
  // Re-partitioning the result (lines 97-110).
  // ---------------------------------------------------------------------------

  /** Lines 101-102: the rows whose index year and month are those of `p`, in frame order. */
  function Filter(s: seq<Row>, p: Part): (r: seq<Row>)
    ensures |r| <= |s|
    decreases |s|
  {
    if |s| == 0 then []
    else (if PartOf(s[0].ts) == p then [s[0]] else []) + Filter(s[1..], p)
  }

  /** A row is in the month's slice exactly when it is in the frame and in that month. */
  lemma {:induction false} FilterMembers(s: seq<Row>, p: Part)
    ensures forall x :: x in Filter(s, p) <==> x in s && PartOf(x.ts) == p
    decreases |s|
  {
    if |s| > 0 {
      FilterMembers(s[1..], p);
      assert s == [s[0]] + s[1..];
    }
  }

  /** The month's slice of a sorted frame is sorted. */
  lemma {:induction false} FilterAscending(s: seq<Row>, p: Part)
    requires Ascending(s)
    ensures Ascending(Filter(s, p))
    decreases |s|
  {
    if |s| > 0 {
      AscendingRest(s);
      FilterAscending(s[1..], p);
      FilterMembers(s[1..], p);
      var rest := Filter(s[1..], p);
      if PartOf(s[0].ts) == p {
        var r := [s[0]] + rest;
        forall i, j | 0 <= i < j < |r| ensures Earlier(r, i, j) {
          if i == 0 {
            assert rest[j - 1] in rest;
            assert rest[j - 1] in s[1..];
            var k :| 0 <= k < |s[1..]| && s[1..][k] == rest[j - 1];
            assert Earlier(s, 0, k + 1);
          } else {
            assert Earlier(rest, i - 1, j - 1);
          }
        }
        assert Filter(s, p) == r;
      } else {
        assert Filter(s, p) == rest;
      }
    }
  }

  /** Lines 97-110 as intended: one file per found month, holding that month's rows. */
  function SaveByPartition(s: seq<Row>, exportBase: string, ticker: string, ps: seq<Part>): (w: seq<Write<Row>>)
    ensures |w| == |ps|
  {
    seq(|ps|, k requires 0 <= k < |ps| => Write(PathOf(exportBase, ticker, ps[k]), Filter(s, ps[k])))
  }

  /**
   * The saved files: each is the month's file under the export base; two
   * files never share a path nor a row; every row of the frame whose month
   * was found is written, to its month's file, and nothing else is.
   */
  lemma SavePartitions(s: seq<Row>, exportBase: string, ticker: string, ps: seq<Part>)
    requires PartsAscending(ps)
    ensures var w := SaveByPartition(s, exportBase, ticker, ps);
      && (forall k :: 0 <= k < |ps| ==> w[k].path == PathOf(exportBase, ticker, ps[k]))
      && (forall k :: 0 <= k < |ps| ==> forall x :: x in w[k].rows <==> x in s && PartOf(x.ts) == ps[k])
      && (forall k, l :: 0 <= k < l < |ps| ==> w[k].path != w[l].path)
      && (forall k, l, x :: 0 <= k < l < |ps| && x in w[k].rows ==> x !in w[l].rows)
      && (forall i :: 0 <= i < |s| && PartOf(s[i].ts) in ps ==>
            exists k :: 0 <= k < |ps| && w[k].path == PathOf(exportBase, ticker, PartOf(s[i].ts)) && s[i] in w[k].rows)
  {
    var w := SaveByPartition(s, exportBase, ticker, ps);
    forall k | 0 <= k < |ps| ensures forall x :: x in w[k].rows <==> x in s && PartOf(x.ts) == ps[k] {
      FilterMembers(s, ps[k]);
    }
    forall k, l | 0 <= k < l < |ps| ensures w[k].path != w[l].path {
      assert PartBefore(ps[k], ps[l]);
      PathOfInjective(exportBase, ticker, ps[k], ps[l]);
    }
    forall i | 0 <= i < |s| && PartOf(s[i].ts) in ps
      ensures exists k :: 0 <= k < |ps| && w[k].path == PathOf(exportBase, ticker, PartOf(s[i].ts)) && s[i] in w[k].rows
    {
      var k :| 0 <= k < |ps| && ps[k] == PartOf(s[i].ts);
      FilterMembers(s, ps[k]);
    }
  }

  /** The rows of the written files, file after file: what reading them back in order gives. */
  function SavedRows(w: seq<Write<Row>>): seq<Row>
    decreases |w|
  {
    if |w| == 0 then [] else w[0].rows + SavedRows(w[1..])
  }

  /** The month slices of `s` for the months `ps`, one after the other. */
  function Slices(s: seq<Row>, ps: seq<Part>): seq<Row>
    decreases |ps|
  {
    if |ps| == 0 then [] else Filter(s, ps[0]) + Slices(s, ps[1..])
  }

  /** The saved files, read back in month order, hold the rows of those months in frame order. */
  lemma {:induction false} SavedSlices(s: seq<Row>, exportBase: string, ticker: string, ps: seq<Part>)
    ensures SavedRows(SaveByPartition(s, exportBase, ticker, ps)) == Slices(s, ps)
    decreases |ps|
  {
    if |ps| > 0 {
      SaveByPartitionCons(s, exportBase, ticker, ps);
      SavedSlices(s, exportBase, ticker, ps[1..]);
    }
  }

  /** Slicing never picks the first row for a month other than its own. */
  lemma {:induction false} SlicesSkipHead(s: seq<Row>, ps: seq<Part>)
    requires |s| > 0 && PartOf(s[0].ts) !in ps
    ensures Slices(s, ps) == Slices(s[1..], ps)
    decreases |ps|
  {
    if |ps| > 0 {
      assert ps[0] != PartOf(s[0].ts);
      assert Filter(s, ps[0]) == Filter(s[1..], ps[0]);
      assert PartOf(s[0].ts) !in ps[1..] by {
        assert forall k :: 0 <= k < |ps[1..]| ==> ps[1..][k] == ps[k + 1];
      }
      SlicesSkipHead(s, ps[1..]);
    }
  }

  /** No row of a sorted frame lies in a month before that of its first row. */
  lemma LaterRows(s: seq<Row>, p: Part)
    requires Ascending(s) && |s| > 0 && PartBefore(p, PartOf(s[0].ts))
    ensures forall i :: 0 <= i < |s| ==> PartOf(s[i].ts) != p
  {
    forall i | 0 <= i < |s| ensures PartOf(s[i].ts) != p {
      if i > 0 {
        assert Earlier(s, 0, i);
      }
    }
  }

  /** The slice of a month no row lies in is empty. */
  lemma {:induction false} FilterNone(s: seq<Row>, p: Part)
    requires forall i :: 0 <= i < |s| ==> PartOf(s[i].ts) != p
    ensures Filter(s, p) == []
    decreases |s|
  {
    if |s| > 0 {
      FilterNone(s[1..], p);
    }
  }

  /**
   * Saving a sorted frame month by month and reading the files back in
   * month order gives the frame itself, when every row lies in one of the
   * months saved.
   */
  lemma {:induction false} SlicesRebuild(s: seq<Row>, ps: seq<Part>)
    requires Ascending(s) && PartsAscending(ps)
    requires forall i :: 0 <= i < |s| ==> PartOf(s[i].ts) in ps
    ensures Slices(s, ps) == s
    decreases |s| + |ps|
  {
    if |s| == 0 {
      if |ps| > 0 {
        AscendingTail(ps);
        SlicesRebuild(s, ps[1..]);
      }
    } else if PartOf(s[0].ts) == ps[0] {
      HeadNotInTail(ps);
      AscendingRest(s);
      SlicesRebuild(s[1..], ps);
      SlicesCons(s, ps);
      assert s == [s[0]] + s[1..];
    } else {
      SlicesSkipMonth(s, ps);
      AscendingTail(ps);
      SlicesRebuild(s, ps[1..]);
    }
  }

  /** The first row in a later month: the first month has no row, and every row's month is in the rest. */
  lemma SlicesSkipMonth(s: seq<Row>, ps: seq<Part>)
    requires Ascending(s) && PartsAscending(ps) && |s| > 0 && |ps| > 0
    requires forall i :: 0 <= i < |s| ==> PartOf(s[i].ts) in ps
    requires PartOf(s[0].ts) != ps[0]
    ensures Slices(s, ps) == Slices(s, ps[1..])
    ensures forall i :: 0 <= i < |s| ==> PartOf(s[i].ts) in ps[1..]
  {
    var j :| 0 <= j < |ps| && ps[j] == PartOf(s[0].ts);
    assert PartBefore(ps[0], ps[j]);
    LaterRows(s, ps[0]);
    FilterNone(s, ps[0]);
    MonthsInTail(s, ps);
  }

  /** Strictly increasing months never repeat the first. */
  lemma HeadNotInTail(ps: seq<Part>)
    requires PartsAscending(ps) && |ps| > 0
    ensures ps[0] !in ps[1..]
  {
    forall k | 0 <= k < |ps[1..]| ensures ps[1..][k] != ps[0] {
      assert PartBefore(ps[0], ps[k + 1]);
    }
  }

  /** Rows whose months are listed but are not the first month have their months in the rest of the list. */
  lemma MonthsInTail(s: seq<Row>, ps: seq<Part>)
    requires |ps| > 0
    requires forall i :: 0 <= i < |s| ==> PartOf(s[i].ts) in ps
    requires forall i :: 0 <= i < |s| ==> PartOf(s[i].ts) != ps[0]
    ensures forall i :: 0 <= i < |s| ==> PartOf(s[i].ts) in ps[1..]
  {
    forall i | 0 <= i < |s| ensures PartOf(s[i].ts) in ps[1..] {
      var k :| 0 <= k < |ps| && ps[k] == PartOf(s[i].ts);
      assert ps[1..][k - 1] == ps[k];
    }
  }

  /** The first row goes first, in the slice of its own month. */
  lemma {:induction false} SlicesCons(s: seq<Row>, ps: seq<Part>)
    requires |s| > 0 && |ps| > 0 && PartOf(s[0].ts) == ps[0] && ps[0] !in ps[1..]
    ensures Slices(s, ps) == [s[0]] + Slices(s[1..], ps)
  {
    SlicesSkipHead(s, ps[1..]);
    assert Filter(s, ps[0]) == [s[0]] + Filter(s[1..], ps[0]);
    assert Slices(s[1..], ps) == Filter(s[1..], ps[0]) + Slices(s[1..], ps[1..]);
  }

  /** Dropping the first month keeps a month list ascending. */
  lemma AscendingTail(ps: seq<Part>)
    requires PartsAscending(ps) && |ps| > 0
    ensures PartsAscending(ps[1..])
  {
    forall i, j | 0 <= i < j < |ps[1..]| ensures PartBefore(ps[1..][i], ps[1..][j]) {
      assert PartBefore(ps[i + 1], ps[j + 1]);
    }
  }

  /**
   * The round trip of the export: the rows of the files the save loop
   * writes, read back in month order, are the frame it saved.
   */
  lemma SaveThenLoad(s: seq<Row>, exportBase: string, ticker: string, ps: seq<Part>)
    requires Ascending(s) && PartsAscending(ps)
    requires forall i :: 0 <= i < |s| ==> PartOf(s[i].ts) in ps
    ensures SavedRows(SaveByPartition(s, exportBase, ticker, ps)) == s
  {
    SavedSlices(s, exportBase, ticker, ps);
    SlicesRebuild(s, ps);
  }

  /**
   * Saving a sorted frame whose rows all lie in the listed months: one file
   * per month at its own path, holding exactly that month's rows, and the
   * files read back in order give the frame.
   */
  lemma SavedFrame(s: seq<Row>, exportBase: string, ticker: string, ps: seq<Part>)
    requires Ascending(s) && PartsAscending(ps)
    requires forall i :: 0 <= i < |s| ==> PartOf(s[i].ts) in ps
    ensures var w := SaveByPartition(s, exportBase, ticker, ps);
      && |w| == |ps|
      && (forall k :: 0 <= k < |ps| ==> w[k].path == PathOf(exportBase, ticker, ps[k]))
      && (forall k :: 0 <= k < |ps| ==> forall x :: x in w[k].rows <==> x in s && PartOf(x.ts) == ps[k])
      && (forall k, l :: 0 <= k < l < |ps| ==> w[k].path != w[l].path)
      && SavedRows(w) == s
  {
    SavePartitions(s, exportBase, ticker, ps);
    SaveThenLoad(s, exportBase, ticker, ps);
  }

  /** The paths split into the base's segments, the year, the month and the file name. */
  lemma PathSegments(base: string, ticker: string, p: Part)
    requires '/' !in ticker
    ensures Split(PathOf(base, ticker, p))
              == Split(base) + [DecimalText(p.year), MonthText(p.month), ticker + ".parquet"]
  {
    var y := DecimalText(p.year);
    var m := MonthText(p.month);
    var f := ticker + ".parquet";
    NumberTextsHaveNoSlash(p.year);
    NumberTextsHaveNoSlash(p.month);
    assert '/' !in f by {
      assert forall k :: 0 <= k < |f| ==> f[k] == (if k < |ticker| then ticker[k] else ".parquet"[k - |ticker|]);
    }
    SplitNoSlash(y);
    SplitNoSlash(m);
    SplitNoSlash(f);
    assert PathOf(base, ticker, p) == ((base + "/" + y) + "/" + m) + "/" + f;
    SplitJoin(base, y);
    SplitJoin(base + "/" + y, m);
    SplitJoin((base + "/" + y) + "/" + m, f);
  }

  /** Different months of one ticker have different paths. */
  lemma PathOfInjective(base: string, ticker: string, p: Part, q: Part)
    requires p != q
    ensures PathOf(base, ticker, p) != PathOf(base, ticker, q)
  {
    if PathOf(base, ticker, p) == PathOf(base, ticker, q) {
      var file := "/" + ticker + ".parquet";
      var n := |base + "/"|;
      PathTail(base, ticker, p);
      PathTail(base, ticker, q);
      var a := PathOf(base, ticker, p)[n..];
      NumberTextsHaveNoSlash(p.year);
      NumberTextsHaveNoSlash(q.year);
      NumberTextsHaveNoSlash(p.month);
      NumberTextsHaveNoSlash(q.month);
      PrefixBeforeSlash(DecimalText(p.year), "/" + (MonthText(p.month) + file),
                        DecimalText(q.year), "/" + (MonthText(q.month) + file));
      assert ("/" + (MonthText(p.month) + file))[1..] == MonthText(p.month) + file;
      assert ("/" + (MonthText(q.month) + file))[1..] == MonthText(q.month) + file;
      PrefixBeforeSlash(MonthText(p.month), file, MonthText(q.month), file);
      DecimalRoundTrip(p.year);
      DecimalRoundTrip(q.year);
      MonthRoundTrip(p.month);
      MonthRoundTrip(q.month);
    }
  }

  /** What follows the base and its slash in a path: year, slash, month, slash, file name. */
  lemma PathTail(base: string, ticker: string, p: Part)
    ensures var n := |base + "/"|;
      n <= |PathOf(base, ticker, p)|
      && PathOf(base, ticker, p)[n..]
           == DecimalText(p.year) + ("/" + (MonthText(p.month) + ("/" + ticker + ".parquet")))
  {
    var t := DecimalText(p.year) + ("/" + (MonthText(p.month) + ("/" + ticker + ".parquet")));
    assert PathOf(base, ticker, p) == (base + "/") + t;
  }

  /** Two texts without a slash, each followed by a slash, are equal when the wholes are. */
  lemma PrefixBeforeSlash(a: string, c: string, b: string, d: string)
    requires '/' !in a && '/' !in b
    requires |c| > 0 && c[0] == '/' && |d| > 0 && d[0] == '/'
    requires a + c == b + d
    ensures a == b && c == d
  {
    SlashAfter(a, c);
    SlashAfter(b, d);
    assert a == (a + c)[..|a|] && b == (b + d)[..|b|];
    assert c == (a + c)[|a|..] && d == (b + d)[|b|..];
  }

  /** The position of the first slash of a text (its length when there is none). */
  function FirstSlash(s: string): nat
    decreases |s|
  {
    if |s| == 0 || s[0] == '/' then 0 else 1 + FirstSlash(s[1..])
  }

  lemma {:induction false} SlashAfter(a: string, c: string)
    requires '/' !in a && |c| > 0 && c[0] == '/'
    ensures FirstSlash(a + c) == |a|
    decreases |a|
  {
    if |a| > 0 {
      assert (a + c)[1..] == a[1..] + c;
      assert a[0] in a;
      assert '/' !in a[1..] by {
        forall k | 0 <= k < |a[1..]| ensures a[1..][k] != '/' {
          assert a[1..][k] == a[k + 1];
        }
      }
      SlashAfter(a[1..], c);
    }
  }

  /**
   * Lines 97-110 as written: year and month are taken from segments 4 and 5
   * of `path.split('/')` (an `IndexError` when there are fewer segments, a
   * `ValueError` when one is not an integer), the month's rows are selected
   * by their integer values, and the file goes to
   * `{export_base_path}/{year}/{month}/{ticker}.parquet` with the two
   * segments as they were. Files written before an exception stay written.
   */
  function SaveAsWritten(s: seq<Row>, exportBase: string, ticker: string, paths: seq<string>): Run<Row, ()>
    decreases |paths|
  {
    if |paths| == 0 then Run([], Returned(()))
    else
      var segs := Split(paths[0]);
      if |segs| <= 5 then Run([], Raised(SegmentMissing(paths[0])))
      else
        match ParseInt(segs[4])
        case None => Run([], Raised(NotAnInteger(segs[4])))
        case Some(y) =>
          match ParseInt(segs[5])
          case None => Run([], Raised(NotAnInteger(segs[5])))
          case Some(m) =>
            var w := Write(exportBase + "/" + segs[4] + "/" + segs[5] + "/" + ticker + ".parquet", Filter(s, Part(y, m)));
            var rest := SaveAsWritten(s, exportBase, ticker, paths[1..]);
            Run([w] + rest.writes, rest.outcome)
  }

  /** The loop as written raises only the `IndexError` and `ValueError` of its path parsing. */
  lemma {:induction false} SaveAsWrittenErrors(s: seq<Row>, exportBase: string, ticker: string, paths: seq<string>)
    ensures var r := SaveAsWritten(s, exportBase, ticker, paths);
      r.outcome.Raised? ==> r.outcome.error.SegmentMissing? || r.outcome.error.NotAnInteger?
    decreases |paths|
  {
    if |paths| > 0 {
      SaveAsWrittenErrors(s, exportBase, ticker, paths[1..]);
    }
  }

  /**
   * When the base path has exactly four segments (`/data/prices/daily`, say)
   * segments 4 and 5 are the year and the month, and the loop as written
   * saves exactly what `SaveByPartition` does.
   */
  lemma {:induction false} SaveAgrees(s: seq<Row>, base: string, exportBase: string, ticker: string, ps: seq<Part>)
    requires |Split(base)| == 4 && '/' !in ticker
    ensures SaveAsWritten(s, exportBase, ticker, PathsOf(base, ticker, ps))
              == Run(SaveByPartition(s, exportBase, ticker, ps), Returned(()))
    decreases |ps|
  {
    if |ps| > 0 {
      SaveAsWrittenHead(s, base, exportBase, ticker, ps);
      SaveAgrees(s, base, exportBase, ticker, ps[1..]);
      SaveByPartitionCons(s, exportBase, ticker, ps);
    }
  }

  /** The first month's file, then the files of the other months. */
  lemma SaveByPartitionCons(s: seq<Row>, exportBase: string, ticker: string, ps: seq<Part>)
    requires |ps| > 0
    ensures SaveByPartition(s, exportBase, ticker, ps)
              == [Write(PathOf(exportBase, ticker, ps[0]), Filter(s, ps[0]))] + SaveByPartition(s, exportBase, ticker, ps[1..])
  {
    SaveByPartitionShift(s, exportBase, ticker, ps);
    SaveByPartitionAt(s, exportBase, ticker, ps, 0);
    ConsOf(SaveByPartition(s, exportBase, ticker, ps), Write(PathOf(exportBase, ticker, ps[0]), Filter(s, ps[0])),
           SaveByPartition(s, exportBase, ticker, ps[1..]));
  }

  /** Each file after the first is the file of the remaining months at one position less. */
  lemma SaveByPartitionShift(s: seq<Row>, exportBase: string, ticker: string, ps: seq<Part>)
    requires |ps| > 0
    ensures var w := SaveByPartition(s, exportBase, ticker, ps);
      var rest := SaveByPartition(s, exportBase, ticker, ps[1..]);
      forall k :: 0 <= k < |rest| ==> w[k + 1] == rest[k]
  {
    var rest := SaveByPartition(s, exportBase, ticker, ps[1..]);
    forall k | 0 <= k < |rest|
      ensures SaveByPartition(s, exportBase, ticker, ps)[k + 1] == rest[k]
    {
      SaveByPartitionAt(s, exportBase, ticker, ps, k + 1);
      SaveByPartitionAt(s, exportBase, ticker, ps[1..], k);
      assert ps[1..][k] == ps[k + 1];
    }
  }

  /** The `k`-th saved file. */
  lemma SaveByPartitionAt(s: seq<Row>, exportBase: string, ticker: string, ps: seq<Part>, k: int)
    requires 0 <= k < |ps|
    ensures SaveByPartition(s, exportBase, ticker, ps)[k] == Write(PathOf(exportBase, ticker, ps[k]), Filter(s, ps[k]))
  {
  }

  /** A sequence is its first element followed by the rest. */
  lemma ConsOf<T>(w: seq<T>, head: T, rest: seq<T>)
    requires |w| == |rest| + 1 && w[0] == head
    requires forall k :: 0 <= k < |rest| ==> w[k + 1] == rest[k]
    ensures w == [head] + rest
  {
  }

  /** One turn of the loop as written, for a path whose segments 4 and 5 read as month `p`. */
  lemma SaveAsWrittenStep(s: seq<Row>, exportBase: string, ticker: string, paths: seq<string>, p: Part)
    requires |paths| > 0
    requires var segs := Split(paths[0]);
      |segs| > 5 && ParseInt(segs[4]) == Some(p.year) && ParseInt(segs[5]) == Some(p.month)
      && exportBase + "/" + segs[4] + "/" + segs[5] + "/" + ticker + ".parquet" == PathOf(exportBase, ticker, p)
    ensures var rest := SaveAsWritten(s, exportBase, ticker, paths[1..]);
      SaveAsWritten(s, exportBase, ticker, paths)
        == Run([Write(PathOf(exportBase, ticker, p), Filter(s, p))] + rest.writes, rest.outcome)
  {
  }

  /** Under a four-segment base, the first turn of the loop as written saves the first month's file. */
  lemma SaveAsWrittenHead(s: seq<Row>, base: string, exportBase: string, ticker: string, ps: seq<Part>)
    requires |Split(base)| == 4 && '/' !in ticker && |ps| > 0
    ensures var rest := SaveAsWritten(s, exportBase, ticker, PathsOf(base, ticker, ps[1..]));
      SaveAsWritten(s, exportBase, ticker, PathsOf(base, ticker, ps))
        == Run([Write(PathOf(exportBase, ticker, ps[0]), Filter(s, ps[0]))] + rest.writes, rest.outcome)
  {
    var paths := PathsOf(base, ticker, ps);
    PathsOfCons(base, ticker, ps);
    SegmentsOfPath(base, exportBase, ticker, ps[0]);
    SaveAsWrittenStep(s, exportBase, ticker, paths, ps[0]);
  }

  /** The paths of a month list are the first month's path followed by the paths of the rest. */
  lemma PathsOfCons(base: string, ticker: string, ps: seq<Part>)
    requires |ps| > 0
    ensures PathsOf(base, ticker, ps)[0] == PathOf(base, ticker, ps[0])
    ensures PathsOf(base, ticker, ps)[1..] == PathsOf(base, ticker, ps[1..])
  {
    var r := PathsOf(base, ticker, ps);
    var rest := PathsOf(base, ticker, ps[1..]);
    forall k | 0 <= k < |rest| ensures r[1..][k] == rest[k] {
      assert ps[1..][k] == ps[k + 1];
    }
  }

  /** Under a four-segment base, segments 4 and 5 of a path read back its month and rebuild its export path. */
  lemma SegmentsOfPath(base: string, exportBase: string, ticker: string, p: Part)
    requires |Split(base)| == 4 && '/' !in ticker
    ensures var segs := Split(PathOf(base, ticker, p));
      && |segs| > 5
      && ParseInt(segs[4]) == Some(p.year) && ParseInt(segs[5]) == Some(p.month)
      && exportBase + "/" + segs[4] + "/" + segs[5] + "/" + ticker + ".parquet" == PathOf(exportBase, ticker, p)
  {
    PathSegments(base, ticker, p);
    var segs := Split(PathOf(base, ticker, p));
    assert segs[4] == DecimalText(p.year) && segs[5] == MonthText(p.month);
    DecimalRoundTrip(p.year);
    MonthRoundTrip(p.month);
  }

  /**
   * The discrepancy, for a base of at most two segments (the relative
   * `data/prices`, say): a path has at most five segments, so the loop as
   * written raises an `IndexError` on the first path and saves nothing,
   * where one file per found month was due.
   */
  lemma SaveAsWrittenShortBase(s: seq<Row>, base: string, exportBase: string, ticker: string, ps: seq<Part>)
    requires |Split(base)| <= 2 && '/' !in ticker && |ps| > 0
    ensures SaveAsWritten(s, exportBase, ticker, PathsOf(base, ticker, ps))
              == Run([], Raised(SegmentMissing(PathOf(base, ticker, ps[0]))))
    ensures |SaveByPartition(s, exportBase, ticker, ps)| == |ps| > 0
  {
    PathSegments(base, ticker, ps[0]);
  }

  /**
   * For a base of three segments (the absolute `/data/prices`, say) segment
   * 5 is the file name, so the loop as written raises a `ValueError` on it.
   */
  lemma SaveAsWrittenThreeSegmentBase(s: seq<Row>, base: string, exportBase: string, ticker: string, ps: seq<Part>)
    requires |Split(base)| == 3 && '/' !in ticker && |ps| > 0
    ensures SaveAsWritten(s, exportBase, ticker, PathsOf(base, ticker, ps))
              == Run([], Raised(NotAnInteger(ticker + ".parquet")))
  {
    var p := ps[0];
    PathSegments(base, ticker, p);
    MonthRoundTrip(p.month);
    var f := ticker + ".parquet";
    assert f[|f| - 8] == '.';
    assert !AllDigits(f);
    if f[0] == '-' || f[0] == '+' {
      assert |ticker| >= 1;
      assert f[1..][|f| - 9] == '.';
    }
  }

  /** The bases of the examples: `data/prices` has two segments, `/data/prices` three. */
  lemma ExampleBases()
    ensures |Split("data/prices")| == 2
    ensures |Split("/data/prices")| == 3
  {
    assert "data/prices" == "data" + "/" + "prices";
    assert "/data/prices" == "" + "/" + "data/prices";
    SplitJoin("data", "prices");
    SplitJoin("", "data/prices");
    SplitNoSlash("data");
    SplitNoSlash("prices");
    SplitNoSlash("");
  }
}
