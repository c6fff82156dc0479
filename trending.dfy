/** The trending cuisines (app.py:229): every comma-separated piece of every cuisine cell,
    stripped and title-cased, counted, and the ten most frequent taken. `Counter` remembers the
    order in which it first saw each piece and `most_common` sorts stably by count, so equal
    counts keep that order. */
module Trending {
  import opened Seqs
  import opened Text
  import opened Loader

  /** `most_common(10)` */
  const TopCount: nat := 10

  /** `c.strip().title()` for every piece `c` that is not blank. */
  function PieceTokens(pieces: seq<string>): seq<string> {
    if pieces == [] then []
    else
      (if Strip(pieces[0]) != [] then [TitleCase(Strip(pieces[0]))] else []) + PieceTokens(pieces[1..])
  }

  /** The pieces of every cuisine cell, row by row. */
  function Tokens(records: seq<Record>): seq<string> {
    if records == [] then [] else PieceTokens(Split(records[0].cuisine, ',')) + Tokens(records[1..])
  }

  /** A counted piece: not empty, without a comma, and without whitespace at either end. */
  predicate IsToken(t: string) {
    t != [] && ',' !in t && !IsSpace(t[0]) && !IsSpace(t[|t| - 1])
  }

  lemma {:induction false} StripToken(p: string)
    requires ',' !in p && Strip(p) != []
    ensures IsToken(Strip(p))
  {
    var s := Strip(p);
    var a := StripAt(p);
    forall i | 0 <= i < |s| ensures s[i] != ',' {
      assert s[i] == p[a + i];
      assert p[a + i] in p;
    }
  }

  lemma {:induction false} TitleToken(s: string)
    requires IsToken(s)
    ensures IsToken(TitleCase(s))
  {
    var r := TitleCase(s);
    forall i | 0 <= i < |r| ensures r[i] != ',' && (IsSpace(r[i]) ==> IsSpace(s[i])) {
      if !IsLetter(s[i]) {
        assert r[i] == s[i];
      }
      assert s[i] in s;
    }
  }

  lemma {:induction false} TitleStripToken(p: string)
    requires ',' !in p && Strip(p) != []
    ensures IsToken(TitleCase(Strip(p)))
  {
    StripToken(p);
    TitleToken(Strip(p));
  }

  lemma {:induction false} PieceTokensShape(pieces: seq<string>)
    requires forall i :: 0 <= i < |pieces| ==> ',' !in pieces[i]
    ensures forall t :: t in PieceTokens(pieces) ==> IsToken(t)
  {
    if pieces != [] {
      PieceTokensShape(pieces[1..]);
      if Strip(pieces[0]) != [] {
        TitleStripToken(pieces[0]);
      }
    }
  }

  /** Every counted piece is a real cuisine name: no commas, no blank, no surrounding whitespace. */
  lemma {:induction false} TokensShape(records: seq<Record>)
    ensures forall t :: t in Tokens(records) ==> IsToken(t)
  {
    if records != [] {
      PieceTokensShape(Split(records[0].cuisine, ','));
      TokensShape(records[1..]);
    }
  }

  function Id(t: string): string { t }

  /** `Counter` keys in the order they were first seen. */
  function FirstSeen(tokens: seq<string>): seq<string> {
    Dedup(tokens, Id)
  }

  /** The `Counter` value of a piece. */
  function CountOf(tokens: seq<string>): string -> real {
    t => multiset(tokens)[t] as real
  }

  /** The pieces with the count `k`. */
  function CountIs(tokens: seq<string>, k: real): string -> bool {
    t => CountOf(tokens)(t) == k
  }

  lemma {:induction false} FirstSeenProperties(tokens: seq<string>)
    ensures Distinct(FirstSeen(tokens))
    ensures forall t :: t in FirstSeen(tokens) <==> t in tokens
  {
    var d := FirstSeen(tokens);
    DedupUnique(tokens, Id);
    DedupKeys(tokens, Id);
    forall t | t in tokens ensures t in d {
      assert Id(t) in KeysOf(tokens, Id);
      var x :| x in d && Id(x) == Id(t);
    }
  }

  /** `most_common(10)`: the pieces by count, highest first, ties in first-seen order. */
  function TrendingCuisines(records: seq<Record>): (r: seq<string>)
    ensures |r| <= TopCount
    ensures Distinct(r)
    ensures forall t :: t in r ==> t in Tokens(records) && IsToken(t)
    ensures SortedDesc(r, CountOf(Tokens(records)))
  {
    var tokens := Tokens(records);
    var d := FirstSeen(tokens);
    FirstSeenProperties(tokens);
    TokensShape(records);
    TopDistinct(d, CountOf(tokens), TopCount);
    Head(SortDesc(d, CountOf(tokens)), TopCount)
  }

  /** A piece is left out only when ten pieces are shown, each counted at least as often. */
  lemma {:induction false} TrendingComplete(records: seq<Record>, t: string)
    requires t in Tokens(records)
    ensures var r := TrendingCuisines(records);
      t in r || (|r| == TopCount && forall u :: u in r ==> multiset(Tokens(records))[u] >= multiset(Tokens(records))[t])
  {
    var tokens := Tokens(records);
    var d := FirstSeen(tokens);
    FirstSeenProperties(tokens);
    HeadComplete(d, CountOf(tokens), TopCount, t);
  }

  /** Ten pieces, or every distinct piece when there are fewer. */
  lemma {:induction false} TrendingLength(records: seq<Record>)
    ensures var n := |FirstSeen(Tokens(records))|;
      |TrendingCuisines(records)| == if n < TopCount then n else TopCount
  {
    SortDescLength(FirstSeen(Tokens(records)), CountOf(Tokens(records)));
  }

  /** Among the pieces with the same count, those shown come first in first-seen order. */
  lemma {:induction false} TrendingTies(records: seq<Record>, k: real)
    ensures Filter(TrendingCuisines(records), CountIs(Tokens(records), k)) <= Filter(FirstSeen(Tokens(records)), CountIs(Tokens(records), k))
  {
    var tokens := Tokens(records);
    var d := FirstSeen(tokens);
    var p := CountIs(tokens, k);
    var s := SortDesc(d, CountOf(tokens));
    SortDescStable(d, CountOf(tokens), p, k);
    HeadFilter(s, TopCount, p);
    assert TrendingCuisines(records) == Head(s, TopCount);
  }
}
