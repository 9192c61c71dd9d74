/**
 * A ticker's data frame: rows keyed by a timestamp index, each holding named
 * numeric columns, and the column-wise arithmetic pandas offers on them
 * (`cumprod`, `shift`).
 */
module Frame {

  /**
   * A timestamp of the frame's index. Only its calendar year and month are
   * ever inspected (`index.year`, `index.month`); `tick` orders the rows
   * within a month.
   */
  datatype Stamp = Stamp(year: int, month: int, tick: int)

  /** Chronological order of timestamps. */
  predicate Before(a: Stamp, b: Stamp) {
    || a.year < b.year
    || (a.year == b.year && a.month < b.month)
    || (a.year == b.year && a.month == b.month && a.tick < b.tick)
  }

  /** One row: its index timestamp and its numeric columns by name. */
  datatype Row = Row(ts: Stamp, values: map<string, real>)

  /** Row `i` of the frame is stamped earlier than row `j`. */
  predicate Earlier(s: seq<Row>, i: int, j: int)
    requires 0 <= i < |s| && 0 <= j < |s|
  {
    Before(s[i].ts, s[j].ts)
  }

  /** Oldest first, no two rows with the same timestamp (`sort_index()`). */
  predicate Ascending(s: seq<Row>) {
    forall i, j :: 0 <= i < j < |s| ==> Earlier(s, i, j)
  }

  /** Newest first, no two rows with the same timestamp (`sort_index(ascending=False)`). */
  predicate Descending(s: seq<Row>) {
    forall i, j :: 0 <= i < j < |s| ==> Earlier(s, j, i)
  }

  function Reverse<T>(s: seq<T>): (r: seq<T>)
    ensures |r| == |s|
    ensures forall i :: 0 <= i < |s| ==> r[i] == s[|s| - 1 - i]
  {
    seq(|s|, i requires 0 <= i < |s| => s[|s| - 1 - i])
  }

  /**
   * Reversing a series with unique ascending timestamps is sorting it newest
   * first, and the other way round.
   */
  lemma ReverseFlipsOrder(s: seq<Row>)
    ensures Ascending(s) <==> Descending(Reverse(s))
    ensures Descending(s) <==> Ascending(Reverse(s))
  {
    var r := Reverse(s);
    var n := |s|;
    assert forall i, j :: 0 <= i < n && 0 <= j < n ==> (Earlier(r, i, j) <==> Earlier(s, n - 1 - i, n - 1 - j));
    if Ascending(s) {
      forall i, j | 0 <= i < j < n ensures Earlier(r, j, i) {
        assert Earlier(s, n - 1 - j, n - 1 - i);
      }
    }
    if Descending(r) {
      forall i, j | 0 <= i < j < n ensures Earlier(s, i, j) {
        assert Earlier(r, n - 1 - i, n - 1 - j);
      }
    }
    if Descending(s) {
      forall i, j | 0 <= i < j < n ensures Earlier(r, i, j) {
        assert Earlier(s, n - 1 - i, n - 1 - j);
      }
    }
    if Ascending(r) {
      forall i, j | 0 <= i < j < n ensures Earlier(s, j, i) {
        assert Earlier(r, n - 1 - j, n - 1 - i);
      }
    }
  }

  /** Order depends on the timestamps alone: a frame stamped like a sorted one is sorted. */
  lemma StampsKept(a: seq<Row>, b: seq<Row>)
    requires |a| == |b|
    requires forall i :: 0 <= i < |a| ==> a[i].ts == b[i].ts
    requires Ascending(b)
    ensures Ascending(a)
  {
    forall i, j | 0 <= i < j < |a| ensures Earlier(a, i, j) {
      assert Earlier(b, i, j);
    }
  }

  /** A frame stamped like a sorted one read backwards is sorted newest first. */
  lemma StampsReversed(a: seq<Row>, b: seq<Row>)
    requires |a| == |b|
    requires forall i :: 0 <= i < |a| ==> a[i].ts == b[|b| - 1 - i].ts
    requires Ascending(b)
    ensures Descending(a)
  {
    var n := |a|;
    forall i, j | 0 <= i < j < n ensures Earlier(a, j, i) {
      assert Earlier(b, n - 1 - j, n - 1 - i);
    }
  }

  /** A sorted frame without its first row is sorted. */
  lemma AscendingRest(s: seq<Row>)
    requires Ascending(s) && |s| > 0
    ensures Ascending(s[1..])
  {
    forall i, j | 0 <= i < j < |s[1..]| ensures Earlier(s[1..], i, j) {
      assert Earlier(s, i + 1, j + 1);
    }
  }

  /** Two sorted frames, the first wholly older than the second, concatenate to a sorted frame. */
  lemma AscendingAppend(a: seq<Row>, b: seq<Row>)
    requires Ascending(a) && Ascending(b)
    requires forall i, j :: 0 <= i < |a| && 0 <= j < |b| ==> Before(a[i].ts, b[j].ts)
    ensures Ascending(a + b)
  {
    forall i, j | 0 <= i < j < |a + b| ensures Earlier(a + b, i, j) {
      if j < |a| {
        assert Earlier(a, i, j);
      } else if i >= |a| {
        assert Earlier(b, i - |a|, j - |a|);
      } else {
        assert Before(a[i].ts, b[j - |a|].ts);
      }
    }
  }

  /** Every row of the frame has column `c`. */
  predicate HasColumn(s: seq<Row>, c: string) {
    forall i :: 0 <= i < |s| ==> c in s[i].values
  }

  /** The values of column `c`, row by row (`df[c]`). */
  function Column(s: seq<Row>, c: string): (r: seq<real>)
    requires HasColumn(s, c)
    ensures |r| == |s|
    ensures forall i :: 0 <= i < |s| ==> r[i] == s[i].values[c]
  {
    seq(|s|, i requires 0 <= i < |s| => s[i].values[c])
  }

  /**
   * Multiplication of two column values, named so that a product stored in a
   * row is matched as a term rather than re-derived arithmetically.
   */
  function Times(a: real, b: real): real {
    a * b
  }

  /** Division of two column values, named for the same reason as `Times`. */
  function Over(a: real, b: real): real
    requires b != 0.0
  {
    a / b
  }

  /** The product of a sequence of reals; 1 for the empty sequence. */
  function Prod(xs: seq<real>): real
    decreases |xs|
  {
    if |xs| == 0 then 1.0 else Times(xs[0], Prod(xs[1..]))
  }

  /** `x` to the power `n`. */
  function Pow(x: real, n: nat): real
    decreases n
  {
    if n == 0 then 1.0 else Times(x, Pow(x, n - 1))
  }

  lemma {:induction false} PowNonZero(x: real, n: nat)
    requires x != 0.0
    ensures Pow(x, n) != 0.0
    decreases n
  {
    if n > 0 {
      PowNonZero(x, n - 1);
    }
  }

  lemma {:induction false} ProdNonZero(xs: seq<real>)
    requires forall k :: 0 <= k < |xs| ==> xs[k] != 0.0
    ensures Prod(xs) != 0.0
    decreases |xs|
  {
    if |xs| > 0 {
      ProdNonZero(xs[1..]);
    }
  }

  /** A product of ones is one. */
  lemma {:induction false} ProdOfOnes(xs: seq<real>)
    requires forall k :: 0 <= k < |xs| ==> xs[k] == 1.0
    ensures Prod(xs) == 1.0
    decreases |xs|
  {
    if |xs| > 0 {
      ProdOfOnes(xs[1..]);
    }
  }

  /** The product of a one-element prefix is its element. */
  lemma ProdPrefixOne(xs: seq<real>)
    requires |xs| > 0
    ensures Prod(xs[..1]) == xs[0]
  {
    assert xs[..1][1..] == [];
  }

  /** Each longer prefix multiplies one more element onto the product. */
  lemma ProdPrefixStep(xs: seq<real>, i: int)
    requires 0 < i < |xs|
    ensures Prod(xs[..i + 1]) == Times(Prod(xs[..i]), xs[i])
  {
    assert xs[..i + 1] == xs[..i] + [xs[i]];
    ProdSnoc(xs[..i], xs[i]);
  }

  /** Multiplying the last factor on instead of the first gives the same product. */
  lemma {:induction false} ProdSnoc(xs: seq<real>, x: real)
    ensures Prod(xs + [x]) == Times(Prod(xs), x)
    decreases |xs|
  {
    if |xs| > 0 {
      assert (xs + [x])[1..] == xs[1..] + [x];
      ProdSnoc(xs[1..], x);
      MulAssoc(xs[0], Prod(xs[1..]), x);
    }
  }

  /** A product does not depend on the order of its factors. */
  lemma {:induction false} ProdReverse(xs: seq<real>)
    ensures Prod(Reverse(xs)) == Prod(xs)
    decreases |xs|
  {
    if |xs| > 0 {
      assert Reverse(xs) == Reverse(xs[1..]) + [xs[0]];
      ProdSnoc(Reverse(xs[1..]), xs[0]);
      ProdReverse(xs[1..]);
    }
  }

  /** pandas `cumprod()` seeded with `acc`: each position multiplies its value onto the running total. */
  function RunningProduct(acc: real, xs: seq<real>): (r: seq<real>)
    ensures |r| == |xs|
    decreases |xs|
  {
    if |xs| == 0 then [] else [Times(acc, xs[0])] + RunningProduct(Times(acc, xs[0]), xs[1..])
  }

  /** Position `i` of the running product is `acc * xs[0] * ... * xs[i]`. */
  lemma {:induction false} RunningProductIsProd(acc: real, xs: seq<real>)
    ensures forall i :: 0 <= i < |xs| ==> RunningProduct(acc, xs)[i] == Times(acc, Prod(xs[..i + 1]))
    decreases |xs|
  {
    if |xs| > 0 {
      RunningProductIsProd(Times(acc, xs[0]), xs[1..]);
      forall i | 1 <= i < |xs| ensures RunningProduct(acc, xs)[i] == Times(acc, Prod(xs[..i + 1])) {
        var p := Prod(xs[1..][..i]);
        assert xs[..i + 1][1..] == xs[1..][..i];
        assert Prod(xs[..i + 1]) == Times(xs[0], p);
        assert RunningProduct(acc, xs)[i] == Times(Times(acc, xs[0]), p);
        MulAssoc(acc, xs[0], p);
      }
    }
  }

  lemma MulAssoc(a: real, b: real, c: real)
    ensures (a * b) * c == a * (b * c)
  {
  }

  /** pandas `cumprod()`. */
  function CumProd(xs: seq<real>): (r: seq<real>)
    ensures |r| == |xs|
  {
    RunningProduct(1.0, xs)
  }

  /** Position `i` of `cumprod()` holds the product of positions `0..i`. */
  lemma CumProdIsProd(xs: seq<real>)
    ensures forall i :: 0 <= i < |xs| ==> CumProd(xs)[i] == Prod(xs[..i + 1])
  {
    RunningProductIsProd(1.0, xs);
  }

  /** `CumProdIsProd` at one position. */
  lemma CumProdAt(xs: seq<real>, i: int)
    requires 0 <= i < |xs|
    ensures CumProd(xs)[i] == Prod(xs[..i + 1])
  {
    CumProdIsProd(xs);
  }

  /** pandas `shift(1)` followed by filling the emptied first position with `fill`. */
  function Shift(xs: seq<real>, fill: real): (r: seq<real>)
    ensures |r| == |xs|
    ensures |xs| > 0 ==> r[0] == fill
    ensures forall i :: 1 <= i < |xs| ==> r[i] == xs[i - 1]
  {
    if |xs| == 0 then [] else [fill] + xs[..|xs| - 1]
  }
}
