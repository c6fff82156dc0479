/** Generic sequence operations that the pandas pipeline is built from:
    boolean-mask selection, a descending sort on a real-valued key, and
    "keep the first row of each key" de-duplication. */
module Seqs {

  datatype Option<T> = None | Some(value: T)

  /** Boolean-mask selection: the elements of `s` satisfying `p`, in order. */
  function Filter<T>(s: seq<T>, p: T -> bool): (r: seq<T>)
    ensures |r| <= |s|
    ensures forall x :: x in r ==> x in s && p(x)
    ensures forall x :: x in s && p(x) ==> x in r
  {
    if s == [] then [] else (if p(s[0]) then [s[0]] else []) + Filter(s[1..], p)
  }

  lemma {:induction false} FilterAppend<T>(a: seq<T>, b: seq<T>, p: T -> bool)
    ensures Filter(a + b, p) == Filter(a, p) + Filter(b, p)
  {
    if a == [] {
      assert a + b == b;
    } else {
      var a' := a[1..];
      assert (a + b)[0] == a[0] && (a + b)[1..] == a' + b;
      var h := if p(a[0]) then [a[0]] else [];
      assert Filter(a + b, p) == h + Filter(a' + b, p);
      FilterAppend(a', b, p);
    }
  }

  /** A weaker mask never selects fewer elements. */
  lemma {:induction false} FilterMonotone<T>(s: seq<T>, p: T -> bool, q: T -> bool)
    requires forall x :: p(x) ==> q(x)
    ensures |Filter(s, p)| <= |Filter(s, q)|
  {
    if s != [] {
      FilterMonotone(s[1..], p, q);
    }
  }

  /** Two masks applied one after the other select what their conjunction selects, in the same order. */
  lemma {:induction false} FilterFilter<T>(s: seq<T>, p: T -> bool, q: T -> bool, both: T -> bool)
    requires forall x :: both(x) == (p(x) && q(x))
    ensures Filter(Filter(s, p), q) == Filter(s, both)
  {
    if s != [] {
      FilterFilter(s[1..], p, q, both);
      if p(s[0]) {
        assert Filter(s, p) == [s[0]] + Filter(s[1..], p);
        assert ([s[0]] + Filter(s[1..], p))[1..] == Filter(s[1..], p);
      } else {
        assert Filter(s, p) == Filter(s[1..], p);
      }
    }
  }

  /** Two masks that agree everywhere select the same elements. */
  lemma {:induction false} FilterSame<T>(s: seq<T>, p: T -> bool, q: T -> bool)
    requires forall x :: p(x) == q(x)
    ensures Filter(s, p) == Filter(s, q)
  {
    if s != [] {
      FilterSame(s[1..], p, q);
    }
  }

  /** A mask every element passes keeps the whole sequence. */
  lemma {:induction false} FilterKeepsAll<T>(s: seq<T>, p: T -> bool)
    requires forall i :: 0 <= i < |s| ==> p(s[i])
    ensures Filter(s, p) == s
  {
    if s != [] {
      FilterKeepsAll(s[1..], p);
    }
  }

  /** Taking the first element of `s` out of a permutation `t` of it leaves a permutation of the rest. */
  lemma {:induction false} MultisetRemove<T>(s: seq<T>, t: seq<T>, i: nat)
    requires multiset(s) == multiset(t) && s != [] && i < |t| && t[i] == s[0]
    ensures multiset(s[1..]) == multiset(t[..i] + t[i + 1..])
  {
    var a, b := t[..i], t[i + 1..];
    assert t == a + [s[0]] + b;
    assert s == [s[0]] + s[1..];
    assert multiset(t) == multiset(a) + multiset{s[0]} + multiset(b);
    assert multiset(s) == multiset{s[0]} + multiset(s[1..]);
    forall x ensures multiset(s[1..])[x] == multiset(a + b)[x] {
      assert multiset(s)[x] == multiset{s[0]}[x] + multiset(s[1..])[x];
      assert multiset(t)[x] == multiset(a)[x] + multiset{s[0]}[x] + multiset(b)[x];
      assert multiset(a + b)[x] == multiset(a)[x] + multiset(b)[x];
    }
  }

  /** Selecting from a permutation selects the same number of elements. */
  lemma {:induction false} FilterPermutation<T>(s: seq<T>, t: seq<T>, p: T -> bool)
    requires multiset(s) == multiset(t)
    ensures |Filter(s, p)| == |Filter(t, p)|
  {
    if s == [] {
      assert |t| == |multiset(t)| == 0;
    } else {
      assert s[0] in multiset(t);
      var i :| 0 <= i < |t| && t[i] == s[0];
      var a, b := t[..i], t[i + 1..];
      assert t == a + [s[0]] + b;
      MultisetRemove(s, t, i);
      FilterPermutation(s[1..], a + b, p);
      FilterAppend(a, b, p);
      FilterAppend(a + [s[0]], b, p);
      FilterAppend(a, [s[0]], p);
      FilterAppend([s[0]], s[1..], p);
    }
  }

  // ---------------------------------------------------------------------------
  // Descending sort on a real-valued key
  // ---------------------------------------------------------------------------

  predicate SortedDesc<T>(s: seq<T>, key: T -> real) {
    forall i, j :: 0 <= i < j < |s| ==> key(s[i]) >= key(s[j])
  }

  /** A sorted sequence stays sorted with an element in front that is at least its first. */
  lemma {:induction false} SortedCons<T>(h: T, t: seq<T>, key: T -> real)
    requires SortedDesc(t, key) && (t == [] || key(h) >= key(t[0]))
    ensures SortedDesc([h] + t, key)
  {
    var r := [h] + t;
    forall i, j | 0 <= i < j < |r| ensures key(r[i]) >= key(r[j]) {
      if i == 0 && j > 1 {
        assert key(t[0]) >= key(t[j - 1]);
      }
    }
  }

  lemma {:induction false} SortedTail<T>(t: seq<T>, key: T -> real)
    requires SortedDesc(t, key) && t != []
    ensures SortedDesc(t[1..], key)
  {
    forall i, j | 0 <= i < j < |t| - 1 ensures key(t[1..][i]) >= key(t[1..][j]) {
      assert t[1..][i] == t[i + 1] && t[1..][j] == t[j + 1];
    }
  }

  /** Puts `x` in front of the first element whose key is not larger than its own. */
  function Insert<T>(x: T, t: seq<T>, key: T -> real): (r: seq<T>)
    ensures multiset(r) == multiset(t) + multiset{x}
    ensures |r| == |t| + 1
    ensures r[0] == x || (t != [] && r[0] == t[0])
    ensures SortedDesc(t, key) ==> SortedDesc(r, key)
  {
    if t == [] || key(x) >= key(t[0]) then
      if SortedDesc(t, key) then SortedCons(x, t, key); [x] + t else [x] + t
    else
      var rest := Insert(x, t[1..], key);
      assert t == [t[0]] + t[1..];
      if SortedDesc(t, key) then
        SortedTail(t, key);
        assert |t| > 1 ==> key(t[0]) >= key(t[1]);
        SortedCons(t[0], rest, key);
        [t[0]] + rest
      else [t[0]] + rest
  }

  /** Insertion sort by `key`, largest first; elements with equal keys keep their input order. */
  function SortDesc<T>(s: seq<T>, key: T -> real): (r: seq<T>)
    ensures multiset(r) == multiset(s)
    ensures SortedDesc(r, key)
  {
    if s == [] then []
    else
      assert s == [s[0]] + s[1..];
      Insert(s[0], SortDesc(s[1..], key), key)
  }

  lemma {:induction false} SortDescLength<T>(s: seq<T>, key: T -> real)
    ensures |SortDesc(s, key)| == |s|
    ensures forall x :: x in SortDesc(s, key) ==> x in s
    ensures forall x :: x in s ==> x in SortDesc(s, key)
  {
    var r := SortDesc(s, key);
    assert |multiset(r)| == |multiset(s)|;
    forall x | x in r ensures x in s {
      assert x in multiset(r);
    }
    forall x | x in s ensures x in r {
      assert x in multiset(s);
    }
  }

  lemma {:induction false} InsertKeyClass<T>(x: T, t: seq<T>, key: T -> real, p: T -> bool, k: real)
    requires forall y :: p(y) == (key(y) == k)
    ensures Filter(Insert(x, t, key), p) == (if p(x) then [x] else []) + Filter(t, p)
  {
    if t == [] || key(x) >= key(t[0]) {
      assert Insert(x, t, key) == [x] + t;
      FilterCons(x, t, p);
    } else {
      var t0, t' := t[0], t[1..];
      var rest := Insert(x, t', key);
      assert Insert(x, t, key) == [t0] + rest;
      assert t == [t0] + t';
      FilterCons(t0, rest, p);
      FilterCons(t0, t', p);
      InsertKeyClass(x, t', key, p, k);
      assert !p(t0) || !p(x);
      SwapFront(if p(t0) then [t0] else [], if p(x) then [x] else [], Filter(t', p));
    }
  }

  lemma TakeNext<T>(s: seq<T>, k: nat)
    requires k < |s|
    ensures s[..k + 1] == s[..k] + [s[k]]
  {
  }

  lemma FilterCons<T>(y: T, u: seq<T>, p: T -> bool)
    ensures Filter([y] + u, p) == (if p(y) then [y] else []) + Filter(u, p)
  {
    assert ([y] + u)[1..] == u;
  }

  lemma SwapFront<T>(a: seq<T>, b: seq<T>, c: seq<T>)
    requires a == [] || b == []
    ensures a + (b + c) == b + (a + c)
  {
    if a == [] {
      assert a + (b + c) == b + c == b + (a + c);
    } else {
      assert b + (a + c) == a + c == a + (b + c);
    }
  }

  /** Stability: the elements sharing any one key value come out in the order they went in. */
  lemma {:induction false} SortDescStable<T>(s: seq<T>, key: T -> real, p: T -> bool, k: real)
    requires forall y :: p(y) == (key(y) == k)
    ensures Filter(SortDesc(s, key), p) == Filter(s, p)
  {
    if s != [] {
      SortDescStable(s[1..], key, p, k);
      InsertKeyClass(s[0], SortDesc(s[1..], key), key, p, k);
    }
  }

  // ---------------------------------------------------------------------------
  // First-occurrence de-duplication
  // ---------------------------------------------------------------------------

  function KeysOf<T(==), K(==)>(s: seq<T>, key: T -> K): set<K> {
    set x | x in s :: key(x)
  }

  lemma {:induction false} KeysOfAppend<T, K>(a: seq<T>, b: seq<T>, key: T -> K)
    ensures KeysOf(a + b, key) == KeysOf(a, key) + KeysOf(b, key)
  {
    forall k | k in KeysOf(a + b, key) ensures k in KeysOf(a, key) + KeysOf(b, key) {
      var x :| x in a + b && key(x) == k;
      if x in a {
        assert k in KeysOf(a, key);
      } else {
        assert k in KeysOf(b, key);
      }
    }
    forall k | k in KeysOf(a, key) + KeysOf(b, key) ensures k in KeysOf(a + b, key) {
      if k in KeysOf(a, key) {
        var x :| x in a && key(x) == k;
        assert x in a + b;
      } else {
        var x :| x in b && key(x) == k;
        assert x in a + b;
      }
    }
  }

  /** Keeps an element exactly when no earlier element has its key (pandas' `drop_duplicates`, `keep="first"`). */
  function Dedup<T(==), K(==)>(s: seq<T>, key: T -> K): (r: seq<T>)
    ensures |r| <= |s|
    ensures forall x :: x in r ==> x in s
  {
    if s == [] then []
    else
      var init, last := s[..|s| - 1], s[|s| - 1];
      assert s == init + [last];
      Dedup(init, key) + (if key(last) in KeysOf(init, key) then [] else [last])
  }

  lemma {:induction false} DedupKeys<T, K>(s: seq<T>, key: T -> K)
    ensures KeysOf(Dedup(s, key), key) == KeysOf(s, key)
  {
    if s != [] {
      var init, last := s[..|s| - 1], s[|s| - 1];
      assert s == init + [last];
      DedupKeys(init, key);
      KeysOfAppend(init, [last], key);
      var d := Dedup(init, key);
      var tail := if key(last) in KeysOf(init, key) then [] else [last];
      KeysOfAppend(d, tail, key);
      assert KeysOf([last], key) == {key(last)};
      assert KeysOf([], key) == {};
    }
  }

  /** No two kept elements share a key. */
  lemma {:induction false} DedupUnique<T, K>(s: seq<T>, key: T -> K)
    ensures forall i, j :: 0 <= i < j < |Dedup(s, key)| ==> key(Dedup(s, key)[i]) != key(Dedup(s, key)[j])
  {
    if s != [] {
      var init, last := s[..|s| - 1], s[|s| - 1];
      DedupUnique(init, key);
      DedupKeys(init, key);
      var d := Dedup(init, key);
      if key(last) !in KeysOf(init, key) {
        forall i | 0 <= i < |d| ensures key(d[i]) != key(last) {
          assert d[i] in d;
        }
      }
    }
  }

  /** `s[j]` passes `p` and no earlier element passing `p` has its key. */
  predicate FirstOf<T, K(==)>(s: seq<T>, p: T -> bool, key: T -> K, j: int)
    requires 0 <= j < |s|
  {
    p(s[j]) && forall k :: 0 <= k < j && p(s[k]) ==> key(s[k]) != key(s[j])
  }

  /** The last element is the first passing element of its key exactly when it passes and no
      element selected from the ones before it has its key. */
  lemma {:induction false} FirstOfLast<T, K>(s: seq<T>, p: T -> bool, key: T -> K)
    requires s != []
    ensures FirstOf(s, p, key, |s| - 1) <==>
            p(s[|s| - 1]) && key(s[|s| - 1]) !in KeysOf(Filter(s[..|s| - 1], p), key)
  {
    var init, last := s[..|s| - 1], s[|s| - 1];
    var fi := Filter(init, p);
    if key(last) in KeysOf(fi, key) {
      var y :| y in fi && key(y) == key(last);
      var k :| 0 <= k < |init| && init[k] == y;
      assert s[k] == y;
    }
    if p(last) && key(last) !in KeysOf(fi, key) {
      forall k | 0 <= k < |s| - 1 && p(s[k]) ensures key(s[k]) != key(last) {
        assert s[k] == init[k];
        assert init[k] in fi;
      }
    }
  }

  lemma {:induction false} FirstOfPrefix<T, K>(s: seq<T>, p: T -> bool, key: T -> K, j: int)
    requires 0 <= j < |s| - 1
    ensures FirstOf(s, p, key, j) == FirstOf(s[..|s| - 1], p, key, j)
  {
    var init := s[..|s| - 1];
    assert forall k :: 0 <= k <= j ==> s[k] == init[k];
  }

  /** Extending the input by one element extends the masked, de-duplicated output by that element
      exactly when it is the first passing element of its key. */
  lemma {:induction false} DedupFilterSnoc<T, K>(s: seq<T>, p: T -> bool, key: T -> K)
    requires s != []
    ensures Dedup(Filter(s, p), key) ==
            Dedup(Filter(s[..|s| - 1], p), key) + (if FirstOf(s, p, key, |s| - 1) then [s[|s| - 1]] else [])
  {
    var init, last := s[..|s| - 1], s[|s| - 1];
    assert s == init + [last];
    FilterAppend(init, [last], p);
    FirstOfLast(s, p, key);
    var fi := Filter(init, p);
    if p(last) {
      assert Filter(s, p) == fi + [last];
      assert (fi + [last])[..|fi|] == fi;
      assert Dedup(fi + [last], key) == Dedup(fi, key) + (if key(last) in KeysOf(fi, key) then [] else [last]);
    } else {
      assert Filter(s, p) == fi;
    }
  }

  /** The first passing element of every key, in input order: element `j` is kept exactly when
      `FirstOf(s, p, key, j)`. A reference for a mask followed by `drop_duplicates`. */
  function FirstRows<T, K(==)>(s: seq<T>, p: T -> bool, key: T -> K): seq<T> {
    if s == [] then []
    else FirstRows(s[..|s| - 1], p, key) + (if FirstOf(s, p, key, |s| - 1) then [s[|s| - 1]] else [])
  }

  /** Masking then de-duplicating keeps the first passing element of every key, and keeps them
      in their input order. */
  lemma {:induction false} DedupFilterFirstRows<T, K>(s: seq<T>, p: T -> bool, key: T -> K)
    ensures Dedup(Filter(s, p), key) == FirstRows(s, p, key)
  {
    if s != [] {
      DedupFilterFirstRows(s[..|s| - 1], p, key);
      DedupFilterSnoc(s, p, key);
    }
  }

  /** `x` is the first element of `s` passing `p` with its key. */
  predicate KeptFirst<T(==), K(==)>(s: seq<T>, p: T -> bool, key: T -> K, x: T) {
    exists j :: 0 <= j < |s| && FirstOf(s, p, key, j) && x == s[j]
  }

  lemma KeptFirstIndex<T, K>(s: seq<T>, p: T -> bool, key: T -> K, x: T) returns (j: int)
    requires KeptFirst(s, p, key, x)
    ensures 0 <= j < |s| && FirstOf(s, p, key, j) && x == s[j]
  {
    j :| 0 <= j < |s| && FirstOf(s, p, key, j) && x == s[j];
  }

  lemma {:induction false} KeptFirstPrefix<T, K>(s: seq<T>, p: T -> bool, key: T -> K, x: T)
    requires s != [] && KeptFirst(s[..|s| - 1], p, key, x)
    ensures KeptFirst(s, p, key, x)
  {
    var init := s[..|s| - 1];
    var j := KeptFirstIndex(init, p, key, x);
    FirstOfPrefix(s, p, key, j);
    assert s[j] == init[j];
  }

  /** Every element kept by masking then de-duplicating is the first passing element of its key. */
  lemma {:induction false} DedupFilterSound<T, K>(s: seq<T>, p: T -> bool, key: T -> K)
    ensures forall x :: x in Dedup(Filter(s, p), key) ==> KeptFirst(s, p, key, x)
  {
    if s == [] {
      assert Filter(s, p) == [];
    } else {
      var init := s[..|s| - 1];
      DedupFilterSound(init, p, key);
      DedupFilterSnoc(s, p, key);
      var di := Dedup(Filter(init, p), key);
      forall x | x in Dedup(Filter(s, p), key) ensures KeptFirst(s, p, key, x) {
        if x in di {
          KeptFirstPrefix(s, p, key, x);
        } else {
          assert x == s[|s| - 1] && FirstOf(s, p, key, |s| - 1);
        }
      }
    }
  }

  /** The first passing element of every key is kept by masking then de-duplicating. */
  lemma {:induction false} DedupFilterComplete<T, K>(s: seq<T>, p: T -> bool, key: T -> K)
    ensures forall j :: 0 <= j < |s| && FirstOf(s, p, key, j) ==> s[j] in Dedup(Filter(s, p), key)
  {
    if s != [] {
      var init := s[..|s| - 1];
      DedupFilterComplete(init, p, key);
      DedupFilterSnoc(s, p, key);
      var di := Dedup(Filter(init, p), key);
      var tail := if FirstOf(s, p, key, |s| - 1) then [s[|s| - 1]] else [];
      assert Dedup(Filter(s, p), key) == di + tail;
      forall j | 0 <= j < |s| && FirstOf(s, p, key, j) ensures s[j] in di + tail {
        if j < |init| {
          FirstOfPrefix(s, p, key, j);
          assert s[j] == init[j];
          assert init[j] in di;
        } else {
          assert j == |s| - 1;
          assert tail == [s[j]];
        }
      }
    }
  }

  // ---------------------------------------------------------------------------
  // `head(n)`
  // ---------------------------------------------------------------------------

  /** The first `n` elements, or all of them when there are fewer. */
  function Head<T>(t: seq<T>, n: nat): (r: seq<T>)
    ensures |r| == if |t| < n then |t| else n
    ensures r == t[..|r|]
  {
    if |t| < n then t else t[..n]
  }
  /** `head(n)` repeats no element more often than its input has it. */
  lemma HeadSubMultiset<T>(t: seq<T>, n: nat)
    ensures multiset(Head(t, n)) <= multiset(t)
  {
    var r := Head(t, n);
    assert t == r + t[|r|..];
    assert multiset(t) == multiset(r) + multiset(t[|r|..]);
  }


  /** Selecting from the first `n` elements gives a prefix of the whole selection. */
  lemma HeadFilter<T>(t: seq<T>, n: nat, p: T -> bool)
    ensures Filter(Head(t, n), p) <= Filter(t, p)
  {
    var h := Head(t, n);
    assert t == h + t[|h|..];
    FilterAppend(h, t[|h|..], p);
  }

  // ---------------------------------------------------------------------------
  // Sequences without repeats
  // ---------------------------------------------------------------------------

  predicate Distinct<T(==)>(s: seq<T>) {
    forall i, j :: 0 <= i < j < |s| ==> s[i] != s[j]
  }

  lemma {:induction false} DistinctCounts<T>(s: seq<T>)
    requires Distinct(s)
    ensures forall x :: multiset(s)[x] <= 1
  {
    if s != [] {
      assert s == [s[0]] + s[1..];
      DistinctCounts(s[1..]);
      assert s[0] !in s[1..];
    }
  }

  /** After sorting and cutting to `n`, an element of `s` is still there, or `n` elements are,
      none with a smaller key. */
  lemma {:induction false} HeadComplete<T>(s: seq<T>, key: T -> real, n: nat, x: T)
    requires x in s
    ensures var r := Head(SortDesc(s, key), n);
      x in r || (|r| == n && forall y :: y in r ==> key(y) >= key(x))
  {
    var t := SortDesc(s, key);
    SortDescLength(s, key);
    var r := Head(t, n);
    if x !in r {
      var k :| 0 <= k < |t| && t[k] == x;
      assert k >= |r|;
      forall y | y in r ensures key(y) >= key(x) {
        var i :| 0 <= i < |r| && r[i] == y;
        assert r[i] == t[i];
      }
    }
  }

  /** A permutation of a sequence without repeats has none either. */
  lemma {:induction false} PermutationDistinct<T>(s: seq<T>, t: seq<T>)
    requires multiset(s) == multiset(t) && Distinct(s)
    ensures Distinct(t)
  {
    DistinctCounts(s);
    forall i, j | 0 <= i < j < |t| ensures t[i] != t[j] {
      TwoCopies(t, i, j);
    }
  }

  lemma {:induction false} TwoCopies<T>(t: seq<T>, i: nat, j: nat)
    requires i < j < |t|
    ensures t[i] == t[j] ==> multiset(t)[t[i]] >= 2
  {
    assert t == t[..j] + t[j..];
    assert t[i] in t[..j] && t[j] in t[j..];
    assert multiset(t)[t[i]] == multiset(t[..j])[t[i]] + multiset(t[j..])[t[i]];
  }

  /** The first `n` of a sorted permutation of a sequence without repeats: sorted, drawn from
      the sequence, and without repeats. */
  lemma {:induction false} TopDistinct<T>(s: seq<T>, key: T -> real, n: nat)
    requires Distinct(s)
    ensures var r := Head(SortDesc(s, key), n);
      SortedDesc(r, key) && Distinct(r) && forall x :: x in r ==> x in s
  {
    var t := SortDesc(s, key);
    SortDescLength(s, key);
    PermutationDistinct(s, t);
    var r := Head(t, n);
    assert forall i :: 0 <= i < |r| ==> r[i] == t[i];
  }
}
