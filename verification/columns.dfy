/**
 * One row of the adjust loops of functions/data_processor.py (lines 84-85 and
 * 230-231): `for col in adjust_cols: df[col] = df[col] * df['cum_adj_factor']`
 * and the same with `/`. The loop runs over the column list in order and
 * reads the factor column afresh each time, so a column listed twice is
 * scaled twice, and listing the factor column itself changes the factor seen
 * by the columns after it. A row is a map from column names to values; the
 * name of the factor column is a parameter.
 */
module Columns {
  import opened Frame

  /** How many times `c` occurs in `cols`. */
  function Occurrences<K(==)>(cols: seq<K>, c: K): nat
    decreases |cols|
  {
    if |cols| == 0 then 0
    else (if cols[0] == c then 1 else 0) + Occurrences(cols[1..], c)
  }

  lemma {:induction false} OccurrencesOfAbsent<K>(cols: seq<K>, c: K)
    requires c !in cols
    ensures Occurrences(cols, c) == 0
    decreases |cols|
  {
    if |cols| > 0 {
      assert cols == [cols[0]] + cols[1..];
      OccurrencesOfAbsent(cols[1..], c);
    }
  }

  /** A column listed once, and only once, is scaled exactly once. */
  lemma {:induction false} OccurrencesOfUnique<K>(cols: seq<K>, k: int)
    requires 0 <= k < |cols|
    requires forall i, j :: 0 <= i < j < |cols| ==> cols[i] != cols[j]
    ensures Occurrences(cols, cols[k]) == 1
    decreases |cols|
  {
    if k == 0 {
      assert cols[0] !in cols[1..];
      OccurrencesOfAbsent(cols[1..], cols[0]);
    } else {
      OccurrencesOfUnique(cols[1..], k - 1);
    }
  }

  /** `row[col] = row[col] * row[factor]` for each `col` of `cols` in turn. */
  function MultiplyColumns<K(==)>(v: map<K, real>, cols: seq<K>, factor: K): (r: map<K, real>)
    requires factor in v
    requires forall k :: 0 <= k < |cols| ==> cols[k] in v
    ensures r.Keys == v.Keys
    decreases |cols|
  {
    if |cols| == 0 then v
    else MultiplyColumns(v[cols[0] := Times(v[cols[0]], v[factor])], cols[1..], factor)
  }

  /** `row[col] = row[col] / row[factor]` for each `col` of `cols` in turn. */
  function DivideColumns<K(==)>(v: map<K, real>, cols: seq<K>, factor: K): (r: map<K, real>)
    requires factor in v && v[factor] != 0.0
    requires forall k :: 0 <= k < |cols| ==> cols[k] in v
    ensures r.Keys == v.Keys
    decreases |cols|
  {
    if |cols| == 0 then v
    else
      var w := v[cols[0] := Over(v[cols[0]], v[factor])];
      assert w[factor] != 0.0;
      DivideColumns(w, cols[1..], factor)
  }

  /** `x` multiplied by `f`, `n` times over, in the order the loop does it. */
  function Scaled(x: real, f: real, n: nat): real
    decreases n
  {
    if n == 0 then x else Scaled(Times(x, f), f, n - 1)
  }

  /** `x` divided by `f`, `n` times over, in the order the loop does it. */
  function Unscaled(x: real, f: real, n: nat): real
    requires f != 0.0
    decreases n
  {
    if n == 0 then x else Unscaled(Over(x, f), f, n - 1)
  }

  lemma ScaledStep(x: real, f: real, n: nat)
    ensures Scaled(x, f, n + 1) == Scaled(Times(x, f), f, n)
  {
  }

  lemma {:induction false} ScaledIsPow(x: real, f: real, n: nat)
    ensures Scaled(x, f, n) == Times(x, Pow(f, n))
    decreases n
  {
    if n > 0 {
      ScaledIsPow(Times(x, f), f, n - 1);
      MulAssoc(x, f, Pow(f, n - 1));
    }
  }

  lemma {:induction false} UnscaledIsPow(x: real, f: real, n: nat)
    requires f != 0.0
    ensures Pow(f, n) != 0.0
    ensures Times(Unscaled(x, f, n), Pow(f, n)) == x
    decreases n
  {
    PowNonZero(f, n);
    if n > 0 {
      UnscaledIsPow(Over(x, f), f, n - 1);
      var u := Unscaled(Over(x, f), f, n - 1);
      assert u * Pow(f, n - 1) == x / f;
      assert u * (f * Pow(f, n - 1)) == (u * Pow(f, n - 1)) * f;
    }
  }

  /** Dividing `n` times by `f` is dividing once by `f` to the power `n`. */
  lemma UnscaledIsQuotient(x: real, f: real, n: nat)
    requires f != 0.0
    ensures Pow(f, n) != 0.0
    ensures Unscaled(x, f, n) == Over(x, Pow(f, n))
  {
    UnscaledIsPow(x, f, n);
  }

  /** Undoing `n` multiplications by `n` divisions, and the other way round. */
  lemma ScaleRoundTrip(x: real, f: real, n: nat)
    requires f != 0.0
    ensures Unscaled(Scaled(x, f, n), f, n) == x
    ensures Scaled(Unscaled(x, f, n), f, n) == x
  {
    var p := Pow(f, n);
    ScaledIsPow(x, f, n);
    UnscaledIsPow(Scaled(x, f, n), f, n);
    UnscaledIsPow(x, f, n);
    ScaledIsPow(Unscaled(x, f, n), f, n);
    Cancel(x, Unscaled(Scaled(x, f, n), f, n), p);
  }

  lemma Cancel(x: real, y: real, p: real)
    requires p != 0.0 && y * p == x * p
    ensures y == x
  {
  }

  /**
   * After the multiply loop, column `c` holds its old value multiplied by the
   * factor once per occurrence of `c` in the list; a column not in the list
   * keeps its value. Stated when `c` is not listed or the factor column is
   * not listed (otherwise the factor changes part-way).
   */
  lemma {:induction false} MultiplyColumnsAt<K>(v: map<K, real>, cols: seq<K>, factor: K, c: K)
    requires factor in v
    requires forall k :: 0 <= k < |cols| ==> cols[k] in v
    requires c in v
    requires c !in cols || factor !in cols
    ensures MultiplyColumns(v, cols, factor)[c] == Scaled(v[c], v[factor], Occurrences(cols, c))
    decreases |cols|
  {
    if |cols| == 0 {
      return;
    }
    var w := v[cols[0] := Times(v[cols[0]], v[factor])];
    assert c !in cols[1..] || factor !in cols[1..] by {
      assert forall k :: 0 <= k < |cols[1..]| ==> cols[1..][k] == cols[k + 1];
    }
    MultiplyColumnsAt(w, cols[1..], factor, c);
    var n := Occurrences(cols[1..], c);
    if c == cols[0] {
      assert factor != c;
      ScaledHead(v, factor, c, n);
    } else if c !in cols {
      OccurrencesOfAbsent(cols, c);
      OccurrencesOfAbsent(cols[1..], c);
    } else {
      assert factor != cols[0];
    }
  }

  /** Scaling the head column once, then `n` more times, is scaling it `n + 1` times. */
  lemma ScaledHead<K>(v: map<K, real>, factor: K, c: K, n: nat)
    requires factor in v && c in v && c != factor
    ensures Scaled(v[c := Times(v[c], v[factor])][c], v[factor], n) == Scaled(v[c], v[factor], n + 1)
  {
    ScaledStep(v[c], v[factor], n);
  }

  /** The divide loop, column by column, as `MultiplyColumnsAt` states the multiply loop. */
  lemma {:induction false} DivideColumnsAt<K>(v: map<K, real>, cols: seq<K>, factor: K, c: K)
    requires factor in v && v[factor] != 0.0
    requires forall k :: 0 <= k < |cols| ==> cols[k] in v
    requires c in v
    requires c !in cols || factor !in cols
    ensures DivideColumns(v, cols, factor)[c] == Unscaled(v[c], v[factor], Occurrences(cols, c))
    decreases |cols|
  {
    if |cols| > 0 {
      var w := v[cols[0] := Over(v[cols[0]], v[factor])];
      assert w[factor] != 0.0;
      assert cols == [cols[0]] + cols[1..];
      DivideColumnsAt(w, cols[1..], factor, c);
      if c !in cols {
        OccurrencesOfAbsent(cols, c);
        OccurrencesOfAbsent(cols[1..], c);
      } else {
        assert w[factor] == v[factor];
      }
    }
  }

  /** A column left out of the divide loop keeps its value. */
  lemma DivideColumnsUnlisted<K>(v: map<K, real>, cols: seq<K>, factor: K, c: K)
    requires factor in v && v[factor] != 0.0
    requires forall k :: 0 <= k < |cols| ==> cols[k] in v
    requires c in v && c !in cols
    ensures DivideColumns(v, cols, factor)[c] == v[c]
  {
    DivideColumnsAt(v, cols, factor, c);
    OccurrencesOfAbsent(cols, c);
  }

  /** A column left out of the multiply loop keeps its value. */
  lemma MultiplyColumnsUnlisted<K>(v: map<K, real>, cols: seq<K>, factor: K, c: K)
    requires factor in v
    requires forall k :: 0 <= k < |cols| ==> cols[k] in v
    requires c in v && c !in cols
    ensures MultiplyColumns(v, cols, factor)[c] == v[c]
  {
    MultiplyColumnsAt(v, cols, factor, c);
    OccurrencesOfAbsent(cols, c);
  }

  /** Dividing never turns a non-zero value into 0, whatever the column list. */
  lemma {:induction false} DivideColumnsNonZero<K>(v: map<K, real>, cols: seq<K>, factor: K, c: K)
    requires factor in v && v[factor] != 0.0
    requires forall k :: 0 <= k < |cols| ==> cols[k] in v
    requires c in v && v[c] != 0.0
    ensures DivideColumns(v, cols, factor)[c] != 0.0
    decreases |cols|
  {
    if |cols| > 0 {
      var w := v[cols[0] := Over(v[cols[0]], v[factor])];
      assert w[factor] != 0.0 && w[c] != 0.0;
      DivideColumnsNonZero(w, cols[1..], factor, c);
    }
  }

  /**
   * On one row, dividing by the factor undoes multiplying by it and the other
   * way round, whenever the factor column itself is not in the list; the
   * factor column is left as it was.
   */
  lemma DivideInvertsMultiply<K>(v: map<K, real>, cols: seq<K>, factor: K)
    requires factor in v && v[factor] != 0.0
    requires forall k :: 0 <= k < |cols| ==> cols[k] in v
    requires factor !in cols
    ensures MultiplyColumns(v, cols, factor)[factor] == v[factor]
    ensures DivideColumns(v, cols, factor)[factor] == v[factor]
    ensures DivideColumns(MultiplyColumns(v, cols, factor), cols, factor) == v
    ensures MultiplyColumns(DivideColumns(v, cols, factor), cols, factor) == v
  {
    var f := v[factor];
    MultiplyColumnsUnlisted(v, cols, factor, factor);
    DivideColumnsUnlisted(v, cols, factor, factor);
    var m := MultiplyColumns(v, cols, factor);
    var d := DivideColumns(v, cols, factor);
    forall c | c in v
      ensures DivideColumns(m, cols, factor)[c] == v[c]
      ensures MultiplyColumns(d, cols, factor)[c] == v[c]
    {
      var n := Occurrences(cols, c);
      MultiplyColumnsAt(v, cols, factor, c);
      DivideColumnsAt(m, cols, factor, c);
      DivideColumnsAt(v, cols, factor, c);
      MultiplyColumnsAt(d, cols, factor, c);
      ScaleRoundTrip(v[c], f, n);
    }
  }
}
