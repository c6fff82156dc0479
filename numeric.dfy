/** `numeric_clean` (app.py:12-21) and the median used to fill missing costs (app.py:68-69).
    A cleaned cell is parsed as a non-negative decimal; `None` plays the part of pandas' NaN. */
module Numeric {
  import opened Seqs
  import opened Text

  predicate IsDigit(c: char) { '0' <= c <= '9' }

  /** The characters that the pattern `[^0-9.]` leaves in place. */
  predicate IsNumeral(c: char) { IsDigit(c) || c == '.' }

  predicate NotRupee(c: char) { c != '\U{20B9}' }
  predicate NotComma(c: char) { c != ',' }

  /** The text stage of `numeric_clean`: remove the rupee sign, then commas, then every other
      character that is not a digit or a point, then strip. */
  function CleanText(s: string): (r: string)
    ensures r == Filter(s, IsNumeral)
  {
    CleanTextIsNumerals(s);
    Strip(Filter(Filter(Filter(s, NotRupee), NotComma), IsNumeral))
  }

  /** The first two removals and the strip add nothing: what is left is exactly the digits and
      points of the cell, in order. */
  lemma {:induction false} CleanTextIsNumerals(s: string)
    ensures Strip(Filter(Filter(Filter(s, NotRupee), NotComma), IsNumeral)) == Filter(s, IsNumeral)
  {
    var noRupee := Filter(s, NotRupee);
    FilterFilter(noRupee, NotComma, IsNumeral, IsNumeral);
    FilterFilter(s, NotRupee, IsNumeral, IsNumeral);
    var kept := Filter(s, IsNumeral);
    if kept != [] {
      assert kept[0] in kept && kept[|kept| - 1] in kept;
    }
    StripUnchanged(kept);
  }

  predicate AllDigits(s: string) {
    forall i :: 0 <= i < |s| ==> IsDigit(s[i])
  }

  function DigitValue(c: char): nat
    requires IsDigit(c)
  {
    c as int - '0' as int
  }

  function DigitChar(d: nat): (c: char)
    requires d < 10
    ensures IsDigit(c) && DigitValue(c) == d
  {
    ('0' as int + d) as char
  }

  function Pow10(k: nat): (p: nat)
    ensures p >= 1
  {
    if k == 0 then 1 else 10 * Pow10(k - 1)
  }

  /** The value of a string of decimal digits; the empty string is 0. */
  function DigitsValue(s: string): nat
    requires AllDigits(s)
  {
    if s == [] then 0 else DigitsValue(s[..|s| - 1]) * 10 + DigitValue(s[|s| - 1])
  }

  /** Position of the first point. */
  function PointIndex(d: string): (i: nat)
    requires '.' in d
    ensures i < |d| && d[i] == '.'
    ensures forall k :: 0 <= k < i ==> d[k] != '.'
  {
    if d[0] == '.' then 0
    else
      assert d == [d[0]] + d[1..];
      var j := PointIndex(d[1..]);
      assert forall k :: 0 < k <= j ==> d[k] == d[1..][k - 1];
      j + 1
  }

  lemma {:induction false} NumeralsWithoutPoint(d: string)
    requires forall i :: 0 <= i < |d| ==> IsNumeral(d[i])
    requires '.' !in d
    ensures AllDigits(d)
  {
    forall i | 0 <= i < |d| ensures IsDigit(d[i]) {
      assert d[i] in d;
    }
  }

  /** The value of a whole part `w` followed by a fraction of `k` digits with value `f`. */
  function Fixed(w: nat, f: nat, k: nat): (x: real)
    ensures x >= w as real
  {
    w as real + f as real / Pow10(k) as real
  }

  /** No character of `d` is a digit. */
  predicate NoDigit(d: string) {
    forall k :: 0 <= k < |d| ==> !IsDigit(d[k])
  }

  /** `d` holds a point in two places. */
  predicate TwoPoints(d: string) {
    exists i, j :: 0 <= i < j < |d| && d[i] == '.' && d[j] == '.'
  }

  /** `pd.to_numeric(..., errors="coerce")` on a string of digits and points: at least one digit
      and at most one point make a number (`"12"`, `"1."`, `".5"`, `"1.5"`); anything else
      (`"."`, `"1.2.3"`) is NaN. */
  function ParseDecimal(d: string): (r: Option<real>)
    requires forall i :: 0 <= i < |d| ==> IsNumeral(d[i])
    ensures r.Some? ==> r.value >= 0.0
    ensures r.None? <==> NoDigit(d) || TwoPoints(d)
  {
    if '.' !in d then
      NumeralsWithoutPoint(d);
      NoPointCase(d);
      if d == [] then None else Some(DigitsValue(d) as real)
    else
      var i := PointIndex(d);
      var whole, frac := d[..i], d[i + 1..];
      PointCase(d, i);
      if '.' in frac || (whole == [] && frac == []) then None
      else
        NumeralsWithoutPoint(whole);
        NumeralsWithoutPoint(frac);
        Some(Fixed(DigitsValue(whole), DigitsValue(frac), |frac|))
  }

  /** Without a point, the only text with no digit is the empty one. */
  lemma NoPointCase(d: string)
    requires forall i :: 0 <= i < |d| ==> IsNumeral(d[i])
    requires '.' !in d
    ensures !TwoPoints(d)
    ensures NoDigit(d) <==> d == []
  {
    forall i | 0 <= i < |d| ensures d[i] != '.' {
      assert d[i] in d;
    }
    if d != [] {
      assert d[0] in d;
    }
  }

  /** Around the first point at `i`: a second point lies after it, and when there is none, the
      text has no digit exactly when the point is all of it. */
  lemma PointCase(d: string, i: nat)
    requires forall i :: 0 <= i < |d| ==> IsNumeral(d[i])
    requires '.' in d && i == PointIndex(d)
    ensures TwoPoints(d) <==> '.' in d[i + 1..]
    ensures '.' !in d[i + 1..] ==> (NoDigit(d) <==> d[..i] == [] && d[i + 1..] == [])
  {
    var frac := d[i + 1..];
    if '.' in frac {
      var j :| 0 <= j < |frac| && frac[j] == '.';
      assert 0 <= i < i + 1 + j < |d| && d[i] == '.' && d[i + 1 + j] == '.';
    }
    if TwoPoints(d) {
      var a, b :| 0 <= a < b < |d| && d[a] == '.' && d[b] == '.';
      assert frac[b - i - 1] == d[b];
    }
    if i > 0 {
      assert IsDigit(d[0]);
    }
    if frac != [] {
      assert frac[0] == d[i + 1] && frac[0] in frac;
    }
  }

  /** `numeric_clean` applied to one cell: `None` when nothing but digits and points is left
      empty or does not parse. */
  function NumericClean(s: string): (r: Option<real>)
    ensures r.Some? ==> r.value >= 0.0
    ensures Filter(s, IsNumeral) == [] ==> r == None
  {
    var d := CleanText(s);
    if d == [] then None else ParseDecimal(d)
  }

  /** Currency signs, separators, units and other noise around the digits make no difference. */
  lemma {:induction false} NumericCleanIgnoresNoise(s: string)
    ensures NumericClean(s) == NumericClean(Filter(s, IsNumeral))
  {
    FilterFilter(s, IsNumeral, IsNumeral, IsNumeral);
  }

  // ---------------------------------------------------------------------------
  // Round trip: printing a fixed-point number and cleaning it gives the number back
  // ---------------------------------------------------------------------------

  /** The last `k` decimal digits of `n`, with leading zeros. */
  function Digits(n: nat, k: nat): (s: string)
    ensures |s| == k && AllDigits(s) && '.' !in s
  {
    if k == 0 then [] else Digits(n / 10, k - 1) + [DigitChar(n % 10)]
  }

  lemma {:induction false} DigitsValueOfDigits(n: nat, k: nat)
    requires n < Pow10(k)
    ensures DigitsValue(Digits(n, k)) == n
  {
    if k > 0 {
      var s := Digits(n, k);
      assert s[..|s| - 1] == Digits(n / 10, k - 1);
      DigitsValueOfDigits(n / 10, k - 1);
    }
  }

  /** A non-empty cell made only of digits and points is parsed as it stands. */
  lemma {:induction false} NumericCleanOfNumerals(s: string)
    requires s != [] && forall i :: 0 <= i < |s| ==> IsNumeral(s[i])
    ensures NumericClean(s) == ParseDecimal(s)
  {
    FilterKeepsAll(s, IsNumeral);
  }

  /** A whole number printed with `m` digits cleans back to itself. */
  lemma {:induction false} NumericCleanWhole(w: nat, m: nat)
    requires 1 <= m && w < Pow10(m)
    ensures NumericClean(Digits(w, m)) == Some(w as real)
  {
    var s := Digits(w, m);
    NumericCleanOfNumerals(s);
    DigitsValueOfDigits(w, m);
  }

  /** Digits, one point and digits parse as whole part plus fraction. */
  lemma {:induction false} ParseAtPoint(a: string, b: string)
    requires AllDigits(a) && AllDigits(b) && '.' !in a && '.' !in b && |a| + |b| >= 1
    ensures forall i :: 0 <= i < |a + "." + b| ==> IsNumeral((a + "." + b)[i])
    ensures ParseDecimal(a + "." + b) == Some(Fixed(DigitsValue(a), DigitsValue(b), |b|))
    ensures NumericClean(a + "." + b) == ParseDecimal(a + "." + b)
  {
    NumericsOfFixed(a, b);
    NumericCleanOfNumerals(a + "." + b);
    PointAt(a, b);
  }

  /** The first point of `a + "." + b` is the one after `a` when `a` has none. */
  lemma {:induction false} PointAt(a: string, b: string)
    requires '.' !in a
    ensures var s := a + "." + b;
      '.' in s && PointIndex(s) == |a| && s[..|a|] == a && s[|a| + 1..] == b
  {
    var s := a + "." + b;
    assert s[..|a|] == a && s[|a| + 1..] == b && s[|a|] == '.';
    assert s[|a|] in s;
    var i := PointIndex(s);
    assert i >= |a| by {
      forall k | 0 <= k < |a| ensures s[k] != '.' {
        assert s[k] == a[k];
        assert a[k] in a;
      }
    }
  }

  lemma {:induction false} NumericsOfFixed(a: string, b: string)
    requires AllDigits(a) && AllDigits(b)
    ensures forall i :: 0 <= i < |a + "." + b| ==> IsNumeral((a + "." + b)[i])
  {
    var s := a + "." + b;
    forall i | 0 <= i < |s| ensures IsNumeral(s[i]) {
      if i < |a| { assert s[i] == a[i]; } else if i > |a| { assert s[i] == b[i - |a| - 1]; }
    }
  }

  /** A fixed-point number printed as `m` digits, a point and `k` digits cleans back to its value. */
  lemma {:induction false} NumericCleanFixed(w: nat, m: nat, f: nat, k: nat)
    requires 1 <= m + k && w < Pow10(m) && f < Pow10(k)
    ensures NumericClean(Digits(w, m) + "." + Digits(f, k)) == Some(Fixed(w, f, k))
  {
    var a, b := Digits(w, m), Digits(f, k);
    ParseAtPoint(a, b);
    DigitsValueOfDigits(w, m);
    DigitsValueOfDigits(f, k);
  }

  // ---------------------------------------------------------------------------
  // Median of the parsed values (`Series.median(skipna=True)`)
  // ---------------------------------------------------------------------------

  function RealKey(x: real): real { x }

  /** The middle value of a sorted sequence, or the mean of its two middle values when its
      length is even. */
  function Middle(t: seq<real>): real
    requires t != []
  {
    var n := |t|;
    if n % 2 == 1 then t[n / 2] else (t[n / 2 - 1] + t[n / 2]) / 2.0
  }

  /** The middle value of the sorted values; NaN (`None`) when there are none. */
  function Median(c: seq<real>): (m: Option<real>)
    ensures m.Some? <==> |c| > 0
  {
    if c == [] then None
    else
      SortDescLength(c, RealKey);
      Some(Middle(SortDesc(c, RealKey)))
  }

  function AtMost(m: real): real -> bool { x => x <= m }
  function AtLeast(m: real): real -> bool { x => x >= m }

  lemma {:induction false} MiddleBetween(t: seq<real>)
    requires t != [] && SortedDesc(t, RealKey)
    ensures t[(|t| - 1) / 2] >= Middle(t) >= t[|t| / 2]
  {
    var n := |t|;
    if n % 2 == 0 {
      assert RealKey(t[n / 2 - 1]) >= RealKey(t[n / 2]);
    }
  }

  /** The median lies between the two middle values of the sorted values. */
  lemma {:induction false} MedianBetweenMiddles(c: seq<real>)
    requires |c| > 0
    ensures |SortDesc(c, RealKey)| == |c|
    ensures SortDesc(c, RealKey)[(|c| - 1) / 2] >= Median(c).value >= SortDesc(c, RealKey)[|c| / 2]
  {
    SortDescLength(c, RealKey);
    MiddleBetween(SortDesc(c, RealKey));
  }

  /** The median is no smaller than one of the values and no larger than one of them. */
  lemma {:induction false} MedianWithinValues(c: seq<real>)
    requires |c| > 0
    ensures exists i :: 0 <= i < |c| && c[i] <= Median(c).value
    ensures exists j :: 0 <= j < |c| && Median(c).value <= c[j]
  {
    var t := SortDesc(c, RealKey);
    MedianBetweenMiddles(c);
    SortDescLength(c, RealKey);
    var lo, hi := |c| / 2, (|c| - 1) / 2;
    assert t[lo] in c && t[hi] in c;
  }

  /** A prefix of `k` elements that all satisfy `p` gives at least `k` elements to the filter. */
  lemma {:induction false} PrefixCount(t: seq<real>, k: nat, p: real -> bool)
    requires k <= |t|
    requires forall i :: 0 <= i < k ==> p(t[i])
    ensures |Filter(t, p)| >= k
  {
    var top := t[..k];
    assert t == top + t[k..];
    FilterAppend(top, t[k..], p);
    FilterKeepsAll(top, p);
  }

  /** A suffix from `k` on whose elements all satisfy `p` gives at least `|t| - k` elements
      to the filter. */
  lemma {:induction false} SuffixCount(t: seq<real>, k: nat, p: real -> bool)
    requires k <= |t|
    requires forall i :: k <= i < |t| ==> p(t[i])
    ensures |Filter(t, p)| >= |t| - k
  {
    var bottom := t[k..];
    assert t == t[..k] + bottom;
    FilterAppend(t[..k], bottom, p);
    FilterKeepsAll(bottom, p);
  }

  /** In a sorted sequence, everything from `k` on is at most `t[k]`, and everything up to
      `k` at least `t[k]`. */
  lemma {:induction false} SortedAround(t: seq<real>, k: nat)
    requires k < |t| && SortedDesc(t, RealKey)
    ensures forall i :: k <= i < |t| ==> t[i] <= t[k]
    ensures forall i :: 0 <= i <= k ==> t[i] >= t[k]
  {
    forall i | k < i < |t| ensures t[i] <= t[k] {
      assert RealKey(t[k]) >= RealKey(t[i]);
    }
    forall i | 0 <= i < k ensures t[i] >= t[k] {
      assert RealKey(t[i]) >= RealKey(t[k]);
    }
  }

  /** At least half the values are at most the median. */
  lemma {:induction false} MedianHalfBelow(c: seq<real>)
    requires |c| > 0
    ensures 2 * |Filter(c, AtMost(Median(c).value))| >= |c|
  {
    var t := SortDesc(c, RealKey);
    SortDescLength(c, RealKey);
    var m := Middle(t);
    assert Median(c).value == m;
    MiddleBetween(t);
    var lo := |t| / 2;
    SortedAround(t, lo);
    assert forall i :: lo <= i < |t| ==> AtMost(m)(t[i]);
    SuffixCount(t, lo, AtMost(m));
    FilterPermutation(c, t, AtMost(m));
  }

  /** At least half the values are at least the median. */
  lemma {:induction false} MedianHalfAbove(c: seq<real>)
    requires |c| > 0
    ensures 2 * |Filter(c, AtLeast(Median(c).value))| >= |c|
  {
    var t := SortDesc(c, RealKey);
    SortDescLength(c, RealKey);
    var m := Middle(t);
    assert Median(c).value == m;
    MiddleBetween(t);
    var hi := (|t| - 1) / 2;
    SortedAround(t, hi);
    assert forall i :: 0 <= i < hi + 1 ==> AtLeast(m)(t[i]);
    PrefixCount(t, hi + 1, AtLeast(m));
    FilterPermutation(c, t, AtLeast(m));
  }
}
