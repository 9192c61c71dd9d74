/**
 * The string handling the partition paths rely on: Python's `str.split('/')`,
 * `str(int)`, the `'{:02d}'` month format, and `int()` on a path segment.
 */
module Text {
  import opened Common

  /** `s.split('/')` in Python: the pieces between slashes, empty ones included. */
  function Split(s: string): (r: seq<string>)
    ensures |r| >= 1
    decreases |s|
  {
    if |s| == 0 then [""]
    else if s[0] == '/' then [""] + Split(s[1..])
    else
      var rest := Split(s[1..]);
      [[s[0]] + rest[0]] + rest[1..]
  }

  /** A text without a slash splits into itself alone. */
  lemma {:induction false} SplitNoSlash(t: string)
    requires '/' !in t
    ensures Split(t) == [t]
    decreases |t|
  {
    if |t| > 0 {
      assert '/' !in t[1..] by {
        forall k | 0 <= k < |t[1..]| ensures t[1..][k] != '/' {
          assert t[1..][k] == t[k + 1];
        }
      }
      SplitNoSlash(t[1..]);
      assert [t[0]] + t[1..] == t;
    }
  }

  /** Splitting `a + "/" + b` splits `a` and `b` separately. */
  lemma {:induction false} SplitJoin(a: string, b: string)
    ensures Split(a + "/" + b) == Split(a) + Split(b)
    decreases |a|
  {
    var s := a + "/" + b;
    if |a| == 0 {
      assert s == "/" + b;
      assert s[1..] == b;
    } else {
      assert s[0] == a[0];
      assert s[1..] == a[1..] + "/" + b;
      SplitJoin(a[1..], b);
      if a[0] != '/' {
        PrependToFirst(Split(a[1..]), Split(b), a[0]);
      }
    }
  }

  /** Gluing a character to the first piece commutes with appending more pieces. */
  lemma PrependToFirst(rest: seq<string>, more: seq<string>, c: char)
    requires |rest| >= 1
    ensures [[c] + (rest + more)[0]] + (rest + more)[1..] == ([[c] + rest[0]] + rest[1..]) + more
  {
    assert (rest + more)[0] == rest[0];
    assert (rest + more)[1..] == rest[1..] + more;
  }

  predicate IsDigit(c: char) {
    '0' <= c <= '9'
  }

  predicate AllDigits(s: string) {
    forall k :: 0 <= k < |s| ==> IsDigit(s[k])
  }

  function DigitChar(d: int): char
    requires 0 <= d < 10
  {
    ('0' as int + d) as char
  }

  function DigitValue(c: char): int {
    c as int - '0' as int
  }

  /** The decimal digits of a natural number, most significant first, no leading zero. */
  function Digits(n: nat): (s: string)
    ensures |s| >= 1 && AllDigits(s)
    decreases n
  {
    if n < 10 then [DigitChar(n)]
    else Digits(n / 10) + [DigitChar(n % 10)]
  }

  /** `str(n)` for a Python `int`. */
  function DecimalText(n: int): string {
    if n < 0 then "-" + Digits(-n) else Digits(n)
  }

  /** `'{:02d}'.format(m)`: at least two characters, zero-padded; the sign counts towards the width. */
  function MonthText(m: int): string {
    if 0 <= m < 10 then "0" + Digits(m) else DecimalText(m)
  }

  /** The value of a string of decimal digits. */
  function DigitsValue(s: string): nat
    requires AllDigits(s)
    decreases |s|
  {
    if |s| == 0 then 0
    else DigitsValue(s[..|s| - 1]) * 10 + DigitValue(s[|s| - 1])
  }

  /**
   * `int(s)` for the segments a partition path contains: an optional sign
   * followed by one or more decimal digits; anything else is a `ValueError`.
   */
  function ParseInt(s: string): Option<int> {
    if |s| > 0 && (s[0] == '-' || s[0] == '+') then
      if |s| > 1 && AllDigits(s[1..]) then
        var v: int := DigitsValue(s[1..]);
        Some(if s[0] == '-' then -v else v)
      else None
    else if |s| > 0 && AllDigits(s) then Some(DigitsValue(s))
    else None
  }

  /** Reading back the digits of `n` gives `n`. */
  lemma {:induction false} DigitsRoundTrip(n: nat)
    ensures DigitsValue(Digits(n)) == n
    decreases n
  {
    if n >= 10 {
      var s := Digits(n);
      assert s[..|s| - 1] == Digits(n / 10);
      DigitsRoundTrip(n / 10);
    }
  }

  /** `int(str(n)) == n`. */
  lemma DecimalRoundTrip(n: int)
    ensures ParseInt(DecimalText(n)) == Some(n)
  {
    if n < 0 {
      var s := DecimalText(n);
      assert s[1..] == Digits(-n);
      DigitsRoundTrip(-n);
    } else {
      DigitsRoundTrip(n);
    }
  }

  /** `int('{:02d}'.format(m)) == m`. */
  lemma MonthRoundTrip(m: int)
    ensures ParseInt(MonthText(m)) == Some(m)
  {
    if 0 <= m < 10 {
      var s := MonthText(m);
      assert s[..|s| - 1] == "0";
      assert DigitsValue("0") == 0;
    } else {
      DecimalRoundTrip(m);
    }
  }

  /** Neither the year nor the month text contains a slash. */
  lemma NumberTextsHaveNoSlash(n: int)
    ensures '/' !in DecimalText(n)
    ensures '/' !in MonthText(n)
  {
    var d := Digits(if n < 0 then -n else n);
    assert forall k :: 0 <= k < |d| ==> d[k] != '/';
  }
}
