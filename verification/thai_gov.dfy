/**
 * `ThaiGovDataReader._get_latest_update_annual` (functions/thai_gov_data.py
 * lines 34-44): pick, for every year named in a list of download URLs, the
 * first URL of that year. The year of a URL is a slice of the first match
 * of a regular expression in it; the regular expression is foreign, so its
 * first match is a parameter (`None` when the URL has no match).
 */
module ThaiGov {
  import opened Common

  /** One entry of the returned dict: a year and the URL kept for it. */
  datatype Entry = Entry(year: string, url: string)

  const TwoIndicesMessage := "year_index must contain two values, start and end indices"
  const OrderedIndicesMessage := "start index must be less than end index"

  // ---------------------------------------------------------------------------
  // Python string slicing.
  // ---------------------------------------------------------------------------

  /** Where a slice bound lands in a string of length `n`: negative counts from the end, then clamped. */
  function SliceBound(i: int, n: nat): (r: nat)
    ensures r <= n
  {
    if i < 0 then (if i + n < 0 then 0 else i + n) else if i > n then n else i
  }

  /** `s[start:stop]` on a Python `str`. */
  function PySlice(s: string, start: int, stop: int): (r: string)
    ensures |r| <= |s|
  {
    var lo := SliceBound(start, |s|);
    var hi := SliceBound(stop, |s|);
    if lo < hi then s[lo..hi] else ""
  }

  /** Bounds inside the string select exactly that stretch; bounds counted from the end select the same stretch. */
  lemma PySliceBounds(s: string, start: int, stop: int)
    ensures 0 <= start <= stop <= |s| ==> PySlice(s, start, stop) == s[start..stop]
    ensures -|s| <= start < 0 && -|s| <= stop < 0 ==>
              PySlice(s, start, stop) == PySlice(s, start + |s|, stop + |s|)
    ensures SliceBound(stop, |s|) <= SliceBound(start, |s|) ==> PySlice(s, start, stop) == ""
  {
  }

  // ---------------------------------------------------------------------------
  // The two loops of lines 37-42, over a year function that has been checked
  // to be defined on every URL.
  // ---------------------------------------------------------------------------

  /** The years the dict already has a URL for. */
  function Years(es: seq<Entry>): set<string> {
    set e | e in es :: e.year
  }

  /** The URLs the dict already has an entry for. */
  function Urls(es: seq<Entry>): set<string> {
    set e | e in es :: e.url
  }

  /**
   * Line 37, `{url: year(url) for url in url_list}`: one entry per distinct
   * URL, in order of first appearance. A repeated URL re-assigns its own key
   * the same year, which leaves the dict as it was.
   */
  function YearDict(acc: seq<Entry>, urls: seq<string>, year: string -> string): seq<Entry>
    decreases |urls|
  {
    if |urls| == 0 then acc
    else if urls[0] in Urls(acc) then YearDict(acc, urls[1..], year)
    else YearDict(acc + [Entry(year(urls[0]), urls[0])], urls[1..], year)
  }

  /** One turn of lines 40-42: keep the entry only if its year has no URL yet. */
  function Keep(acc: seq<Entry>, e: Entry): seq<Entry> {
    if e.year in Years(acc) then acc else acc + [Entry(e.year, e.url)]
  }

  /** Lines 39-42: walk the entries in order, keeping the first URL of each year. */
  function Latest(acc: seq<Entry>, es: seq<Entry>): seq<Entry>
    decreases |es|
  {
    if |es| == 0 then acc else Latest(Keep(acc, es[0]), es[1..])
  }

  /** Every URL with its year, in list order, duplicates included. */
  function Pairs(urls: seq<string>, year: string -> string): (r: seq<Entry>)
    ensures |r| == |urls|
  {
    seq(|urls|, k requires 0 <= k < |urls| => Entry(year(urls[k]), urls[k]))
  }

  // ---------------------------------------------------------------------------
  // A reference definition of the result.
  // ---------------------------------------------------------------------------

  /** Entry `i` is the first of its year. */
  predicate FirstOfYear(es: seq<Entry>, i: int)
    requires 0 <= i < |es|
  {
    forall j :: 0 <= j < i ==> es[j].year != es[i].year
  }

  /** The entries among the first `n` that are the first of their year, in order. */
  function Firsts(es: seq<Entry>, n: nat): seq<Entry>
    requires n <= |es|
    decreases n
  {
    if n == 0 then []
    else Firsts(es, n - 1) + (if FirstOfYear(es, n - 1) then [es[n - 1]] else [])
  }

  /** The entries `Firsts` keeps are the first of their year, and they cover every year seen. */
  lemma {:induction false} FirstsSpec(es: seq<Entry>, n: nat)
    requires n <= |es|
    ensures Years(Firsts(es, n)) == set j | 0 <= j < n :: es[j].year
    ensures forall e :: e in Firsts(es, n) ==> exists i :: 0 <= i < n && es[i] == e && FirstOfYear(es, i)
    ensures forall a, b :: 0 <= a < b < |Firsts(es, n)| ==> Firsts(es, n)[a].year != Firsts(es, n)[b].year
    decreases n
  {
    if n > 0 {
      FirstsSpec(es, n - 1);
      var f := Firsts(es, n - 1);
      var r := Firsts(es, n);
      assert (set j | 0 <= j < n :: es[j].year) == (set j | 0 <= j < n - 1 :: es[j].year) + {es[n - 1].year};
      if FirstOfYear(es, n - 1) {
        assert r == f + [es[n - 1]];
        assert es[n - 1].year !in Years(f);
        forall a, b | 0 <= a < b < |r| ensures r[a].year != r[b].year {
          if b == |f| {
            assert r[a] in f;
          } else {
            assert r[a] == f[a] && r[b] == f[b];
          }
        }
      } else {
        assert r == f;
        var j :| 0 <= j < n - 1 && es[j].year == es[n - 1].year;
      }
    }
  }

  /** The loop, run on more entries, continues where it stopped. */
  lemma {:induction false} LatestSnoc(acc: seq<Entry>, es: seq<Entry>, e: Entry)
    ensures Latest(acc, es + [e]) == Keep(Latest(acc, es), e)
    decreases |es|
  {
    if |es| == 0 {
      assert Latest(acc, [e]) == Latest(Keep(acc, e), []);
    } else {
      assert (es + [e])[1..] == es[1..] + [e];
      LatestSnoc(Keep(acc, es[0]), es[1..], e);
    }
  }

  /** The loop of lines 40-42 keeps exactly the first entry of each year. */
  lemma {:induction false} LatestIsFirsts(es: seq<Entry>, n: nat)
    requires n <= |es|
    ensures Latest([], es[..n]) == Firsts(es, n)
    decreases n
  {
    if n > 0 {
      LatestIsFirsts(es, n - 1);
      assert es[..n] == es[..n - 1] + [es[n - 1]];
      LatestSnoc([], es[..n - 1], es[n - 1]);
      FirstsStep(es, n);
    }
  }

  /** One more entry: `Firsts` keeps it exactly as the loop body does. */
  lemma FirstsStep(es: seq<Entry>, n: nat)
    requires 0 < n <= |es|
    ensures Firsts(es, n) == Keep(Firsts(es, n - 1), es[n - 1])
  {
    FirstsSpec(es, n - 1);
    var f := Firsts(es, n - 1);
    if FirstOfYear(es, n - 1) {
      assert es[n - 1].year !in Years(f);
    } else {
      var j :| 0 <= j < n - 1 && es[j].year == es[n - 1].year;
      assert es[j].year in Years(f);
    }
  }

  // ---------------------------------------------------------------------------
  // The de-duplication of line 37 changes nothing.
  // ---------------------------------------------------------------------------

  /** Every year of the entries walked so far has a URL in the result. */
  lemma {:induction false} LatestCoversYears(acc: seq<Entry>, es: seq<Entry>)
    ensures Years(acc) <= Years(Latest(acc, es))
    ensures forall k :: 0 <= k < |es| ==> es[k].year in Years(Latest(acc, es))
    decreases |es|
  {
    if |es| > 0 {
      LatestCoversYears(Keep(acc, es[0]), es[1..]);
      assert es[0].year in Years(Keep(acc, es[0]));
      forall k | 1 <= k < |es| ensures es[k].year in Years(Latest(acc, es)) {
        assert es[k] == es[1..][k - 1];
      }
    }
  }

  /**
   * Walking the de-duplicated dict gives what walking every URL of the list
   * gives: a repeated URL brings back a year that already has its URL.
   */
  lemma {:induction false} YearDictInvisible(acc: seq<Entry>, urls: seq<string>, year: string -> string)
    requires forall e :: e in acc ==> e.year == year(e.url)
    ensures Latest([], YearDict(acc, urls, year)) == Latest(Latest([], acc), Pairs(urls, year))
    decreases |urls|
  {
    if |urls| > 0 {
      var u := urls[0];
      var e := Entry(year(u), u);
      assert Pairs(urls, year) == [e] + Pairs(urls[1..], year);
      if u in Urls(acc) {
        var d :| d in acc && d.url == u;
        var k :| 0 <= k < |acc| && acc[k] == d;
        LatestCoversYears([], acc);
        assert Keep(Latest([], acc), e) == Latest([], acc);
        YearDictInvisible(acc, urls[1..], year);
      } else {
        var acc' := acc + [e];
        YearDictInvisible(acc', urls[1..], year);
        LatestSnoc([], acc, e);
      }
    }
  }

  // ---------------------------------------------------------------------------
  // The method itself.
  // ---------------------------------------------------------------------------

  /** The first URL of the list the regular expression does not match, if any. */
  function FirstUnmatched(urls: seq<string>, firstMatch: string -> Option<string>): (r: Option<string>)
    decreases |urls|
  {
    if |urls| == 0 then None
    else if firstMatch(urls[0]).None? then Some(urls[0])
    else FirstUnmatched(urls[1..], firstMatch)
  }

  lemma {:induction false} FirstUnmatchedSpec(urls: seq<string>, firstMatch: string -> Option<string>)
    ensures FirstUnmatched(urls, firstMatch).None? <==> forall k :: 0 <= k < |urls| ==> firstMatch(urls[k]).Some?
    ensures FirstUnmatched(urls, firstMatch).Some? ==>
              exists k :: 0 <= k < |urls| && urls[k] == FirstUnmatched(urls, firstMatch).value
                          && firstMatch(urls[k]).None?
                          && forall j :: 0 <= j < k ==> firstMatch(urls[j]).Some?
    decreases |urls|
  {
    if |urls| > 0 {
      FirstUnmatchedSpec(urls[1..], firstMatch);
      if firstMatch(urls[0]).Some? {
        assert forall k :: 1 <= k < |urls| ==> urls[k] == urls[1..][k - 1];
        if FirstUnmatched(urls, firstMatch).Some? {
          var k :| 0 <= k < |urls[1..]| && urls[1..][k] == FirstUnmatched(urls, firstMatch).value
                   && firstMatch(urls[1..][k]).None? && forall j :: 0 <= j < k ==> firstMatch(urls[1..][j]).Some?;
          assert urls[k + 1] == urls[1..][k];
          forall j | 0 <= j < k + 1 ensures firstMatch(urls[j]).Some? {
            if j > 0 {
              assert urls[j] == urls[1..][j - 1];
            }
          }
        }
      }
    }
  }

  /** The year read off a URL: its first match, sliced. */
  function YearOf(firstMatch: string -> Option<string>, start: int, stop: int): string -> string {
    u => match firstMatch(u) case Some(m) => PySlice(m, start, stop) case None => ""
  }

  /**
   * Lines 34-44: check the two assertions, read every URL's year (raising
   * for the first URL without a match), de-duplicate the URLs, then keep the
   * first URL of each year. The dict is returned as its entries in
   * insertion order.
   */
  function LatestUpdateAnnual(urls: seq<string>, firstMatch: string -> Option<string>, yearIndex: seq<int>): Outcome<seq<Entry>> {
    if |yearIndex| != 2 then Raised(AssertionFailed(TwoIndicesMessage))
    else if yearIndex[0] >= yearIndex[1] then Raised(AssertionFailed(OrderedIndicesMessage))
    else match FirstUnmatched(urls, firstMatch)
      case Some(u) => Raised(NoMatch(u))
      case None => Returned(Latest([], YearDict([], urls, YearOf(firstMatch, yearIndex[0], yearIndex[1]))))
  }

  /**
   * The call fails exactly when `year_index` is not two increasing indices
   * (with the assertion's own message) or some URL has no match (naming the
   * first such URL).
   */
  lemma LatestUpdateErrors(urls: seq<string>, firstMatch: string -> Option<string>, yearIndex: seq<int>)
    ensures var r := LatestUpdateAnnual(urls, firstMatch, yearIndex);
      && (|yearIndex| != 2 ==> r == Raised(AssertionFailed(TwoIndicesMessage)))
      && (|yearIndex| == 2 && yearIndex[0] >= yearIndex[1] ==> r == Raised(AssertionFailed(OrderedIndicesMessage)))
      && (r.Returned? <==> |yearIndex| == 2 && yearIndex[0] < yearIndex[1]
                           && forall k :: 0 <= k < |urls| ==> firstMatch(urls[k]).Some?)
      && (r.Raised? && r.error.NoMatch? ==>
            exists k :: 0 <= k < |urls| && urls[k] == r.error.url && firstMatch(urls[k]).None?
                        && forall j :: 0 <= j < k ==> firstMatch(urls[j]).Some?)
  {
    FirstUnmatchedSpec(urls, firstMatch);
  }

  /** An empty URL list gives an empty dict once the indices pass. */
  lemma LatestUpdateEmpty(firstMatch: string -> Option<string>, start: int, stop: int)
    requires start < stop
    ensures LatestUpdateAnnual([], firstMatch, [start, stop]) == Returned([])
  {
  }

  /** On success the result is the reference definition applied to every URL with its year. */
  lemma LatestUpdateIsFirsts(urls: seq<string>, firstMatch: string -> Option<string>, yearIndex: seq<int>)
    requires LatestUpdateAnnual(urls, firstMatch, yearIndex).Returned?
    ensures |yearIndex| == 2
    ensures var es := Pairs(urls, YearOf(firstMatch, yearIndex[0], yearIndex[1]));
      LatestUpdateAnnual(urls, firstMatch, yearIndex).value == Firsts(es, |es|)
  {
    var es := Pairs(urls, YearOf(firstMatch, yearIndex[0], yearIndex[1]));
    YearDictInvisible([], urls, YearOf(firstMatch, yearIndex[0], yearIndex[1]));
    assert es[..|es|] == es;
    LatestIsFirsts(es, |es|);
  }

  /**
   * On success the result holds, for every year any URL of the list has,
   * exactly one entry, and that entry's URL is the first URL of the list
   * with that year; no other entry is present.
   */
  lemma LatestUpdateFirstWins(urls: seq<string>, firstMatch: string -> Option<string>, yearIndex: seq<int>)
    requires LatestUpdateAnnual(urls, firstMatch, yearIndex).Returned?
    ensures |yearIndex| == 2
    ensures var year := YearOf(firstMatch, yearIndex[0], yearIndex[1]);
      var r := LatestUpdateAnnual(urls, firstMatch, yearIndex).value;
      && (forall k :: 0 <= k < |urls| ==> year(urls[k]) in Years(r))
      && (forall a, b :: 0 <= a < b < |r| ==> r[a].year != r[b].year)
      && (forall e :: e in r ==>
            exists k :: 0 <= k < |urls| && urls[k] == e.url && year(urls[k]) == e.year
                        && forall j :: 0 <= j < k ==> year(urls[j]) != e.year)
  {
    var year := YearOf(firstMatch, yearIndex[0], yearIndex[1]);
    var es := Pairs(urls, year);
    var r := LatestUpdateAnnual(urls, firstMatch, yearIndex).value;
    LatestUpdateIsFirsts(urls, firstMatch, yearIndex);
    FirstsSpec(es, |es|);
    forall k | 0 <= k < |urls| ensures year(urls[k]) in Years(r) {
      assert es[k].year == year(urls[k]);
    }
    forall e | e in r
      ensures exists k :: 0 <= k < |urls| && urls[k] == e.url && year(urls[k]) == e.year
                          && forall j :: 0 <= j < k ==> year(urls[j]) != e.year
    {
      var i :| 0 <= i < |es| && es[i] == e && FirstOfYear(es, i);
      forall j | 0 <= j < i ensures year(urls[j]) != e.year {
        assert es[j].year == year(urls[j]);
      }
    }
  }

  /** Distinct strings drawn from a set are no more than the set holds. */
  lemma {:induction false} DistinctWithin(xs: seq<string>, s: set<string>)
    requires forall a, b :: 0 <= a < b < |xs| ==> xs[a] != xs[b]
    requires forall k :: 0 <= k < |xs| ==> xs[k] in s
    ensures |xs| <= |s|
    decreases |xs|
  {
    if |xs| > 0 {
      var x := xs[|xs| - 1];
      var init := xs[..|xs| - 1];
      assert x !in init by {
        forall k | 0 <= k < |init| ensures init[k] != x {
          assert init[k] == xs[k];
        }
      }
      DistinctWithin(init, s - {x});
    }
  }

  /** The result has no more entries than the list has distinct URLs. */
  lemma LatestUpdateSize(urls: seq<string>, firstMatch: string -> Option<string>, yearIndex: seq<int>)
    requires LatestUpdateAnnual(urls, firstMatch, yearIndex).Returned?
    ensures |LatestUpdateAnnual(urls, firstMatch, yearIndex).value| <= |set k | 0 <= k < |urls| :: urls[k]|
  {
    LatestUpdateFirstWins(urls, firstMatch, yearIndex);
    var year := YearOf(firstMatch, yearIndex[0], yearIndex[1]);
    var r := LatestUpdateAnnual(urls, firstMatch, yearIndex).value;
    var vs := seq(|r|, i requires 0 <= i < |r| => r[i].url);
    forall a, b | 0 <= a < b < |vs| ensures vs[a] != vs[b] {
      assert r[a] in r && r[b] in r;
      var ka :| 0 <= ka < |urls| && urls[ka] == r[a].url && year(urls[ka]) == r[a].year
                && forall j :: 0 <= j < ka ==> year(urls[j]) != r[a].year;
      var kb :| 0 <= kb < |urls| && urls[kb] == r[b].url && year(urls[kb]) == r[b].year
                && forall j :: 0 <= j < kb ==> year(urls[j]) != r[b].year;
    }
    forall k | 0 <= k < |vs| ensures vs[k] in set k | 0 <= k < |urls| :: urls[k] {
      assert r[k] in r;
      var i :| 0 <= i < |urls| && urls[i] == r[k].url && year(urls[i]) == r[k].year
               && forall j :: 0 <= j < i ==> year(urls[j]) != r[k].year;
    }
    DistinctWithin(vs, set k | 0 <= k < |urls| :: urls[k]);
  }

  /** The dict `_get_latest_update_annual` returns, as a map from year to URL. */
  function AsMap(es: seq<Entry>): (m: map<string, string>)
    decreases |es|
  {
    if |es| == 0 then map[] else AsMap(es[..|es| - 1])[es[|es| - 1].year := es[|es| - 1].url]
  }

  /** Entries with distinct years read as a map give each year its entry's URL. */
  lemma {:induction false} AsMapEntries(es: seq<Entry>)
    requires forall a, b :: 0 <= a < b < |es| ==> es[a].year != es[b].year
    ensures AsMap(es).Keys == Years(es)
    ensures forall e :: e in es ==> AsMap(es)[e.year] == e.url
    decreases |es|
  {
    if |es| > 0 {
      var init := es[..|es| - 1];
      AsMapEntries(init);
      YearsSnoc(es);
      forall e | e in es ensures AsMap(es)[e.year] == e.url {
        if e != es[|es| - 1] {
          EarlierEntry(es, e);
        }
      }
    }
  }

  /** The years of a list are the years before its last entry and that entry's year. */
  lemma YearsSnoc(es: seq<Entry>)
    requires |es| > 0
    ensures Years(es) == Years(es[..|es| - 1]) + {es[|es| - 1].year}
  {
    assert es == es[..|es| - 1] + [es[|es| - 1]];
  }

  /** An entry other than the last, in a list with distinct years, lies before the last and has another year. */
  lemma EarlierEntry(es: seq<Entry>, e: Entry)
    requires forall a, b :: 0 <= a < b < |es| ==> es[a].year != es[b].year
    requires e in es && e != es[|es| - 1]
    ensures e in es[..|es| - 1] && e.year != es[|es| - 1].year
  {
    var k :| 0 <= k < |es| && es[k] == e;
    assert es[..|es| - 1][k] == e;
  }

  /** The result read as a dict has the years of the URLs as its keys. */
  lemma LatestUpdateKeys(urls: seq<string>, firstMatch: string -> Option<string>, yearIndex: seq<int>)
    requires LatestUpdateAnnual(urls, firstMatch, yearIndex).Returned?
    ensures |yearIndex| == 2
    ensures var year := YearOf(firstMatch, yearIndex[0], yearIndex[1]);
      AsMap(LatestUpdateAnnual(urls, firstMatch, yearIndex).value).Keys == set j | 0 <= j < |urls| :: year(urls[j])
  {
    var year := YearOf(firstMatch, yearIndex[0], yearIndex[1]);
    var es := Pairs(urls, year);
    LatestUpdateIsFirsts(urls, firstMatch, yearIndex);
    FirstsSpec(es, |es|);
    AsMapEntries(Firsts(es, |es|));
    var lhs := set j | 0 <= j < |es| :: es[j].year;
    var rhs := set j | 0 <= j < |urls| :: year(urls[j]);
    forall y | y in lhs ensures y in rhs {
      var j :| 0 <= j < |es| && es[j].year == y;
      assert year(urls[j]) == y;
    }
    forall y | y in rhs ensures y in lhs {
      var j :| 0 <= j < |urls| && year(urls[j]) == y;
      assert es[j].year == y;
    }
  }

  /** In the result read as a dict, each URL's year maps to the first URL of the list with that year. */
  lemma LatestUpdateLookup(urls: seq<string>, firstMatch: string -> Option<string>, yearIndex: seq<int>, k: int)
    requires LatestUpdateAnnual(urls, firstMatch, yearIndex).Returned?
    requires 0 <= k < |urls|
    ensures |yearIndex| == 2
    ensures var year := YearOf(firstMatch, yearIndex[0], yearIndex[1]);
      var m := AsMap(LatestUpdateAnnual(urls, firstMatch, yearIndex).value);
      && year(urls[k]) in m
      && exists i :: 0 <= i <= k && m[year(urls[k])] == urls[i] && year(urls[i]) == year(urls[k])
                     && forall j :: 0 <= j < i ==> year(urls[j]) != year(urls[k])
  {
    var year := YearOf(firstMatch, yearIndex[0], yearIndex[1]);
    var r := LatestUpdateAnnual(urls, firstMatch, yearIndex).value;
    LatestUpdateFirstWins(urls, firstMatch, yearIndex);
    AsMapEntries(r);
    assert year(urls[k]) in Years(r);
    var e :| e in r && e.year == year(urls[k]);
    var i :| 0 <= i < |urls| && urls[i] == e.url && year(urls[i]) == e.year
             && forall j :: 0 <= j < i ==> year(urls[j]) != e.year;
    assert i <= k;
  }
}
