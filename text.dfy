/** The string operations the pipeline applies to text columns: `str.lower`, `str.strip`,
    `str.title`, `str.split(",")`, substring tests, and the regular-expression rewrite
    `\s*,\s*` -> `,` that normalises cuisine lists. Case mapping and whitespace are ASCII. */
module Text {

  /** The ASCII characters that Python's `str.strip()` and the regex class `\s` treat as
      whitespace: tab, line feed, vertical tab, form feed, carriage return, the four
      separators 0x1C to 0x1F, and space. */
  predicate IsSpace(c: char) {
    || c == ' '
    || '\t' <= c <= '\r'
    || '\U{1C}' <= c <= '\U{1F}'
  }

  predicate IsUpper(c: char) { 'A' <= c <= 'Z' }
  predicate IsLower(c: char) { 'a' <= c <= 'z' }
  predicate IsLetter(c: char) { IsUpper(c) || IsLower(c) }

  function LowerChar(c: char): (r: char)
    ensures !IsUpper(r)
    ensures IsLetter(r) == IsLetter(c)
    ensures !IsLetter(c) ==> r == c
  {
    if IsUpper(c) then (c as int + 32) as char else c
  }

  function UpperChar(c: char): (r: char)
    ensures !IsLower(r)
    ensures IsLetter(r) == IsLetter(c)
    ensures !IsLetter(c) ==> r == c
  {
    if IsLower(c) then (c as int - 32) as char else c
  }

  /** `str.lower()`: every upper-case letter replaced by its lower-case form, nothing else touched. */
  function Lower(s: string): (r: string)
    ensures |r| == |s|
    ensures forall i :: 0 <= i < |s| ==> r[i] == LowerChar(s[i])
    ensures forall i :: 0 <= i < |r| ==> !IsUpper(r[i])
  {
    seq(|s|, i requires 0 <= i < |s| => LowerChar(s[i]))
  }

  /** The characters of `s` that are not whitespace, in order. */
  function WithoutSpaces(s: string): (r: string)
    ensures forall i :: 0 <= i < |r| ==> !IsSpace(r[i])
  {
    if s == [] then [] else (if IsSpace(s[0]) then [] else [s[0]]) + WithoutSpaces(s[1..])
  }

  /** Drops leading whitespace. */
  function TrimLeft(s: string): (r: string)
    ensures |r| <= |s| && r == s[|s| - |r|..]
    ensures forall k :: 0 <= k < |s| - |r| ==> IsSpace(s[k])
    ensures r == [] || !IsSpace(r[0])
    ensures s != [] && IsSpace(s[0]) ==> |r| < |s|
  {
    if s != [] && IsSpace(s[0]) then TrimLeft(s[1..]) else s
  }

  /** Dropping leading whitespace keeps every other character. */
  lemma {:induction false} TrimLeftKeepsNonSpace(s: string)
    ensures WithoutSpaces(TrimLeft(s)) == WithoutSpaces(s)
  {
    if s != [] && IsSpace(s[0]) {
      TrimLeftKeepsNonSpace(s[1..]);
    }
  }

  /** Drops trailing whitespace. */
  function TrimRight(s: string): (r: string)
    ensures |r| <= |s| && r == s[..|r|]
    ensures forall k :: |r| <= k < |s| ==> IsSpace(s[k])
    ensures r == [] || !IsSpace(r[|r| - 1])
  {
    if s != [] && IsSpace(s[|s| - 1]) then TrimRight(s[..|s| - 1]) else s
  }

  /** `r` sits in `s` at offset `a` with nothing but whitespace on either side of it. */
  predicate TrimmedAt(s: string, r: string, a: int) {
    && 0 <= a <= |s| - |r|
    && r == s[a..a + |r|]
    && (forall k :: 0 <= k < a ==> IsSpace(s[k]))
    && (forall k :: a + |r| <= k < |s| ==> IsSpace(s[k]))
  }

  /** `r` is `s` with its leading and trailing whitespace removed: a slice of `s` with only
      whitespace around it that neither starts nor ends with whitespace itself. */
  predicate Trimmed(s: string, r: string) {
    && (r == [] || (!IsSpace(r[0]) && !IsSpace(r[|r| - 1])))
    && exists a :: 0 <= a <= |s| && TrimmedAt(s, r, a)
  }

  /** `str.strip()`: the text between the leading and the trailing whitespace. */
  function Strip(s: string): (r: string)
    ensures |r| <= |s|
    ensures Trimmed(s, r)
  {
    var t := TrimLeft(s);
    var r := TrimRight(t);
    assert Trimmed(s, r) by {
      TrimmedBoth(s, t, r);
    }
    r
  }

  /** Whitespace dropped from the front and then from the back leaves a trimmed slice. */
  lemma TrimmedBoth(s: string, t: string, r: string)
    requires |t| <= |s| && t == s[|s| - |t|..] && (forall k :: 0 <= k < |s| - |t| ==> IsSpace(s[k]))
    requires t == [] || !IsSpace(t[0])
    requires |r| <= |t| && r == t[..|r|] && (forall k :: |r| <= k < |t| ==> IsSpace(t[k]))
    requires r == [] || !IsSpace(r[|r| - 1])
    ensures Trimmed(s, r)
  {
    var a := |s| - |t|;
    assert r == s[a..a + |r|];
    forall k | a + |r| <= k < |s|
      ensures IsSpace(s[k])
    {
      assert s[k] == t[k - a];
    }
    assert TrimmedAt(s, r, a);
  }

  /** The offset at which the stripped text sits in its argument. */
  lemma StripAt(s: string) returns (a: int)
    ensures TrimmedAt(s, Strip(s), a)
  {
    a :| TrimmedAt(s, Strip(s), a);
  }

  /** Stripping keeps no character that its argument does not have. */
  lemma StripNoUpper(s: string)
    requires forall i :: 0 <= i < |s| ==> !IsUpper(s[i])
    ensures forall i :: 0 <= i < |Strip(s)| ==> !IsUpper(Strip(s)[i])
  {
    var r := Strip(s);
    var a := StripAt(s);
    forall i | 0 <= i < |r| ensures !IsUpper(r[i]) {
      assert r[i] == s[a + i];
    }
  }

  /** At most one text is `s` trimmed, so `Trimmed` pins the result of `Strip`. */
  lemma {:induction false} TrimmedUnique(s: string, r1: string, r2: string)
    requires Trimmed(s, r1) && Trimmed(s, r2)
    ensures r1 == r2
  {
    var a1 :| TrimmedAt(s, r1, a1);
    var a2 :| TrimmedAt(s, r2, a2);
    if r2 == [] {
      TrimmedBlank(s, r1, a1, a2);
    } else if r1 == [] {
      TrimmedBlank(s, r2, a2, a1);
    } else {
      TrimmedSameEnds(s, r1, a1, r2, a2);
      TrimmedSameEnds(s, r2, a2, r1, a1);
      assert a1 == a2 && |r1| == |r2|;
    }
  }

  /** Around an empty trimmed text everything is whitespace, so any slice is whitespace. */
  lemma TrimmedBlank(s: string, r: string, a: int, b: int)
    requires TrimmedAt(s, r, a) && TrimmedAt(s, [], b)
    ensures forall i :: 0 <= i < |r| ==> IsSpace(r[i])
  {
    forall i | 0 <= i < |r| ensures IsSpace(r[i]) {
      assert r[i] == s[a + i];
    }
  }

  lemma TrimmedSameEnds(s: string, r1: string, a1: int, r2: string, a2: int)
    requires TrimmedAt(s, r1, a1) && TrimmedAt(s, r2, a2)
    requires r1 != [] && !IsSpace(r1[0]) && !IsSpace(r1[|r1| - 1])
    ensures a2 <= a1 && a1 + |r1| <= a2 + |r2|
  {
    assert s[a1] == r1[0];
    assert s[a1 + |r1| - 1] == r1[|r1| - 1];
  }

  /** A text strips to nothing exactly when it is all whitespace. */
  lemma {:induction false} StripBlank(s: string)
    ensures Strip(s) == [] <==> forall k :: 0 <= k < |s| ==> IsSpace(s[k])
  {
    var l := TrimLeft(s);
    if Strip(s) == [] {
      assert l == [];
      forall k | 0 <= k < |s| ensures IsSpace(s[k]) {
      }
    } else {
      var k := |s| - |l|;
      assert s[k] == l[0];
    }
  }

  /** A text without whitespace at either end is not changed by stripping. */
  lemma {:induction false} StripUnchanged(s: string)
    requires s == [] || (!IsSpace(s[0]) && !IsSpace(s[|s| - 1]))
    ensures Strip(s) == s
  {
  }

  /** Python's `sub in s`. */
  predicate IsSubstring(sub: string, s: string)
    decreases |s|
  {
    |sub| <= |s| && (s[..|sub|] == sub || IsSubstring(sub, s[1..]))
  }

  /** `sub` occurs in `s` at offset `i`. */
  predicate OccursAt(sub: string, s: string, i: int) {
    0 <= i <= |s| - |sub| && s[i..i + |sub|] == sub
  }

  /** `sub in s` holds exactly when `sub` occurs in `s` at some offset. */
  lemma {:induction false} IsSubstringIff(sub: string, s: string)
    ensures IsSubstring(sub, s) <==> exists i :: OccursAt(sub, s, i)
    decreases |s|
  {
    if |sub| > |s| {
    } else if s[..|sub|] == sub {
      assert OccursAt(sub, s, 0);
    } else {
      var t := s[1..];
      IsSubstringIff(sub, t);
      if IsSubstring(sub, t) {
        var i :| OccursAt(sub, t, i);
        assert s[i + 1..i + 1 + |sub|] == t[i..i + |sub|];
        assert OccursAt(sub, s, i + 1);
      }
      if exists i :: OccursAt(sub, s, i) {
        var i :| OccursAt(sub, s, i);
        assert s[0..0 + |sub|] == s[..|sub|];
        assert i != 0;
        assert t[i - 1..i - 1 + |sub|] == s[i..i + |sub|];
        assert OccursAt(sub, t, i - 1);
      }
    }
  }

  // ---------------------------------------------------------------------------
  // The cuisine rewrite  re.sub(r"\s*,\s*", ",", s)
  // ---------------------------------------------------------------------------

  predicate StartsWithComma(s: string) { |s| > 0 && s[0] == ',' }

  /** No comma has whitespace immediately before or after it. */
  predicate NoSpaceAroundComma(s: string) {
    forall i :: 0 <= i < |s| && s[i] == ',' ==>
      (i == 0 || !IsSpace(s[i - 1])) && (i + 1 == |s| || !IsSpace(s[i + 1]))
  }

  /** Replaces every comma together with the whitespace run on each side of it by a bare comma:
      a whitespace run is removed exactly when a comma is next to it. */
  function CollapseCommaSpace(s: string): string
    decreases |s|
  {
    if s == [] then []
    else if s[0] == ',' then [','] + CollapseCommaSpace(TrimLeft(s[1..]))
    else if IsSpace(s[0]) && StartsWithComma(TrimLeft(s)) then CollapseCommaSpace(TrimLeft(s))
    else [s[0]] + CollapseCommaSpace(s[1..])
  }

  /** The rewritten text starts with a comma exactly when the original does after its leading
      whitespace, and a text starting with a non-space keeps its first character. */
  lemma {:induction false} CollapseHead(s: string)
    ensures StartsWithComma(CollapseCommaSpace(s)) <==> StartsWithComma(TrimLeft(s))
    ensures |s| > 0 && !IsSpace(s[0]) ==> |CollapseCommaSpace(s)| > 0 && CollapseCommaSpace(s)[0] == s[0]
  {
    if s != [] && s[0] != ',' {
      if IsSpace(s[0]) && StartsWithComma(TrimLeft(s)) {
        var t := TrimLeft(s);
        assert CollapseCommaSpace(t) == [','] + CollapseCommaSpace(TrimLeft(t[1..]));
      } else if !IsSpace(s[0]) {
        assert TrimLeft(s) == s;
      }
    }
  }

  /** After the rewrite no comma has whitespace immediately before or after it. */
  lemma {:induction false} CollapseNoSpaceAroundComma(s: string)
    ensures NoSpaceAroundComma(CollapseCommaSpace(s))
    decreases |s|
  {
    if s == [] {
    } else if s[0] == ',' {
      var t := TrimLeft(s[1..]);
      var rest := CollapseCommaSpace(t);
      CollapseComma(s);
      CollapseNoSpaceAroundComma(t);
      CollapseHead(t);
      CommaBeforeClean(rest);
    } else if IsSpace(s[0]) && StartsWithComma(TrimLeft(s)) {
      CollapseStep(s);
      CollapseNoSpaceAroundComma(TrimLeft(s));
    } else {
      assert IsSpace(s[0]) ==> TrimLeft(s) == TrimLeft(s[1..]);
      var rest := CollapseCommaSpace(s[1..]);
      CollapseStep(s);
      CollapseNoSpaceAroundComma(s[1..]);
      CollapseHead(s[1..]);
      CharBeforeClean(s[0], rest);
    }
  }

  lemma {:induction false} CommaBeforeClean(rest: string)
    requires NoSpaceAroundComma(rest)
    requires rest == [] || !IsSpace(rest[0])
    ensures NoSpaceAroundComma([','] + rest)
  {
    var r := [','] + rest;
    forall i | 0 <= i < |r| && r[i] == ','
      ensures (i == 0 || !IsSpace(r[i - 1])) && (i + 1 == |r| || !IsSpace(r[i + 1]))
    {
      if i > 0 {
        assert r[i] == rest[i - 1];
      }
    }
  }

  lemma {:induction false} CharBeforeClean(c: char, rest: string)
    requires c != ','
    requires NoSpaceAroundComma(rest)
    requires IsSpace(c) ==> !StartsWithComma(rest)
    ensures NoSpaceAroundComma([c] + rest)
  {
    var r := [c] + rest;
    forall i | 0 <= i < |r| && r[i] == ','
      ensures (i == 0 || !IsSpace(r[i - 1])) && (i + 1 == |r| || !IsSpace(r[i + 1]))
    {
      assert i > 0 && r[i] == rest[i - 1];
    }
  }

  /** The rewrite only ever deletes whitespace. */
  lemma {:induction false} CollapseKeepsNonSpace(s: string)
    ensures WithoutSpaces(CollapseCommaSpace(s)) == WithoutSpaces(s)
    decreases |s|
  {
    if s == [] {
    } else if s[0] == ',' {
      var rest := CollapseCommaSpace(TrimLeft(s[1..]));
      CollapseKeepsNonSpace(TrimLeft(s[1..]));
      TrimLeftKeepsNonSpace(s[1..]);
      assert ([','] + rest)[1..] == rest;
    } else if IsSpace(s[0]) && StartsWithComma(TrimLeft(s)) {
      CollapseKeepsNonSpace(TrimLeft(s));
      TrimLeftKeepsNonSpace(s);
    } else {
      var rest := CollapseCommaSpace(s[1..]);
      CollapseKeepsNonSpace(s[1..]);
      assert ([s[0]] + rest)[1..] == rest;
    }
  }

  lemma {:induction false} InSuffix(s: string, k: nat, c: char)
    requires k <= |s| && c in s[k..]
    ensures c in s
  {
    var i :| 0 <= i < |s[k..]| && s[k..][i] == c;
    assert s[k + i] == c;
  }

  /** The rewrite only deletes whitespace: every character it leaves is a character of its
      input or a comma. */
  lemma {:induction false} CollapseChars(s: string)
    ensures forall c :: c in CollapseCommaSpace(s) ==> c in s || c == ','
    decreases |s|
  {
    if s == [] {
    } else if s[0] == ',' {
      var t := TrimLeft(s[1..]);
      assert CollapseCommaSpace(s) == [','] + CollapseCommaSpace(t);
      CollapseChars(t);
      forall c | c in t ensures c in s {
        InSuffix(s, |s| - |t|, c);
      }
    } else if IsSpace(s[0]) && StartsWithComma(TrimLeft(s)) {
      var t := TrimLeft(s);
      assert CollapseCommaSpace(s) == CollapseCommaSpace(t);
      CollapseChars(t);
      forall c | c in t ensures c in s {
        InSuffix(s, |s| - |t|, c);
      }
    } else {
      assert CollapseCommaSpace(s) == [s[0]] + CollapseCommaSpace(s[1..]);
      CollapseChars(s[1..]);
      forall c | c in s[1..] ensures c in s {
        InSuffix(s, 1, c);
      }
    }
  }

  lemma {:induction false} SpaceRunBeforeComma(s: string)
    requires s != [] && IsSpace(s[0]) && StartsWithComma(TrimLeft(s))
    ensures !NoSpaceAroundComma(s)
  {
    var k := |s| - |TrimLeft(s)|;
    assert s[k] == ',' && IsSpace(s[k - 1]);
  }

  /** Text that already has no whitespace around its commas is left unchanged. */
  lemma {:induction false} CollapseFixpoint(s: string)
    requires NoSpaceAroundComma(s)
    ensures CollapseCommaSpace(s) == s
    decreases |s|
  {
    if s != [] {
      assert NoSpaceAroundComma(s[1..]) by {
        forall i | 0 <= i < |s[1..]| && s[1..][i] == ','
          ensures (i == 0 || !IsSpace(s[1..][i - 1])) && (i + 1 == |s[1..]| || !IsSpace(s[1..][i + 1]))
        {
          assert s[i + 1] == ',';
        }
      }
      assert s == [s[0]] + s[1..];
      if s[0] == ',' {
        assert TrimLeft(s[1..]) == s[1..];
        CollapseComma(s);
        CollapseFixpoint(s[1..]);
      } else if IsSpace(s[0]) && StartsWithComma(TrimLeft(s)) {
        SpaceRunBeforeComma(s);
        assert false;
      } else {
        CollapseStep(s);
        CollapseFixpoint(s[1..]);
      }
    }
  }

  /** Normalising a normalised cuisine list changes nothing. */
  lemma {:induction false} CollapseIdempotent(s: string)
    ensures CollapseCommaSpace(CollapseCommaSpace(s)) == CollapseCommaSpace(s)
  {
    CollapseNoSpaceAroundComma(s);
    CollapseFixpoint(CollapseCommaSpace(s));
  }

  // ---------------------------------------------------------------------------
  // str.split and its inverse
  // ---------------------------------------------------------------------------

  /** Python's `s.split(sep)` for a one-character separator: the pieces between separators,
      including empty ones, and always at least one piece. */
  function Split(s: string, sep: char): (r: seq<string>)
    ensures |r| >= 1
    ensures forall i :: 0 <= i < |r| ==> sep !in r[i]
  {
    if s == [] then [[]]
    else
      var rest := Split(s[1..], sep);
      if s[0] == sep then [[]] + rest
      else [[s[0]] + rest[0]] + rest[1..]
  }

  /** Python's `sep.join(pieces)`. */
  function Join(pieces: seq<string>, sep: char): string {
    if pieces == [] then []
    else if |pieces| == 1 then pieces[0]
    else pieces[0] + [sep] + Join(pieces[1..], sep)
  }

  /** Splitting then joining on the same separator gives back the text. */
  lemma {:induction false} JoinSplit(s: string, sep: char)
    ensures Join(Split(s, sep), sep) == s
  {
    if s != [] {
      var rest := Split(s[1..], sep);
      JoinSplit(s[1..], sep);
      if s[0] == sep {
        assert ([[]] + rest)[1..] == rest;
      } else {
        var r := [[s[0]] + rest[0]] + rest[1..];
        if |rest| > 1 {
          assert r[1..] == rest[1..];
          assert Join(rest, sep) == rest[0] + [sep] + Join(rest[1..], sep);
        }
      }
    }
  }

  /** Joining separator-free pieces then splitting gives back the pieces. */
  lemma {:induction false} SplitJoin(pieces: seq<string>, sep: char)
    requires |pieces| >= 1
    requires forall i :: 0 <= i < |pieces| ==> sep !in pieces[i]
    ensures Split(Join(pieces, sep), sep) == pieces
    decreases |pieces|, |pieces[0]|
  {
    var p := pieces[0];
    if |pieces| == 1 {
      SplitPiece(p, [], sep);
      assert p + [] == p;
      assert Split([], sep) == [[]];
    } else {
      var rest := pieces[1..];
      SplitJoin(rest, sep);
      var u := [sep] + Join(rest, sep);
      assert Join(pieces, sep) == p + u;
      SplitPiece(p, u, sep);
      assert u[1..] == Join(rest, sep);
      assert Split(u, sep) == [[]] + rest;
      assert p + [] == p;
      assert pieces == [p] + rest;
    }
  }

  /** A separator-free prefix glues onto the first piece of what follows it. */
  lemma {:induction false} SplitPiece(p: string, t: string, sep: char)
    requires sep !in p
    ensures Split(p + t, sep) == [p + Split(t, sep)[0]] + Split(t, sep)[1..]
  {
    if p != [] {
      SplitPiece(p[1..], t, sep);
      assert (p + t)[1..] == p[1..] + t;
      assert [p[0]] + (p[1..] + Split(t, sep)[0]) == p + Split(t, sep)[0];
    } else {
      assert p + t == t;
      assert p + Split(t, sep)[0] == Split(t, sep)[0];
      assert [Split(t, sep)[0]] + Split(t, sep)[1..] == Split(t, sep);
    }
  }

  // ---------------------------------------------------------------------------
  // The cuisine rewrite, stated through split and join
  // ---------------------------------------------------------------------------

  /** Every character of `s` is whitespace. */
  predicate Blank(s: string) {
    forall k :: 0 <= k < |s| ==> IsSpace(s[k])
  }

  /** One piece of a comma-split text after the rewrite: whitespace is removed at its start when
      it follows a comma (every piece but the first) and at its end when it precedes one (every
      piece but the last). */
  function CleanPiece(p: string, afterComma: bool, beforeComma: bool): string {
    var q := if afterComma then TrimLeft(p) else p;
    if beforeComma then TrimRight(q) else q
  }

  /** The pieces after the rewrite; `afterComma` says whether the first of them follows a comma. */
  function CleanPieces(pieces: seq<string>, afterComma: bool): (r: seq<string>)
    ensures |r| == |pieces|
  {
    if pieces == [] then []
    else [CleanPiece(pieces[0], afterComma, |pieces| > 1)] + CleanPieces(pieces[1..], true)
  }

  /** The comma rewrite is the same as splitting on commas, trimming each piece on the sides
      that touch a comma, and joining again with bare commas. */
  lemma {:induction false} CollapseBySplit(s: string)
    ensures CollapseCommaSpace(s) == Join(CleanPieces(Split(s, ','), false), ',')
    decreases |s|
  {
    if ',' !in s {
      CollapseNoComma(s);
      SplitNoSep(s, ',');
      assert CleanPieces([s], false) == [s];
    } else {
      var i := FirstIndex(s, ',');
      var p, t := s[..i], s[i + 1..];
      assert s == p + [','] + t;
      CollapseAtComma(p, t);
      SplitAtSep(p, t, ',');
      var q := Split(t, ',');
      SplitTrimLeft(t);
      CleanPiecesCons(p, q);
      var u := TrimLeft(t);
      CollapseBySplit(u);
      var rest := CleanPieces(Split(u, ','), false);
      assert CleanPieces(Split(s, ','), false) == [TrimRight(p)] + rest;
      JoinCons(TrimRight(p), rest, ',');
    }
  }

  /** A text without a comma is not changed by the rewrite. */
  lemma {:induction false} CollapseNoComma(s: string)
    requires ',' !in s
    ensures CollapseCommaSpace(s) == s
  {
    if s != [] {
      assert s == [s[0]] + s[1..] && s[0] in s;
      var t := TrimLeft(s);
      assert t != [] ==> t[0] == s[|s| - |t|] && t[0] in s;
      CollapseStep(s);
      CollapseNoComma(s[1..]);
    }
  }

  /** Up to the first comma the rewrite keeps the text right-trimmed, and after it the rewrite
      resumes on the left-trimmed rest. */
  lemma {:induction false} CollapseAtComma(p: string, t: string)
    requires ',' !in p
    ensures CollapseCommaSpace(p + [','] + t) == TrimRight(p) + [','] + CollapseCommaSpace(TrimLeft(t))
    decreases |p|, 1
  {
    var s := p + [','] + t;
    if p == [] {
      assert s[0] == ',' && s[1..] == t;
      CollapseComma(s);
    } else if Blank(p) {
      CollapseAtBlank(p, t);
    } else {
      CollapseAtWord(p, t);
    }
  }

  /** Whitespace alone before a comma is dropped with it. */
  lemma CollapseAtBlank(p: string, t: string)
    requires ',' !in p && p != [] && Blank(p)
    ensures CollapseCommaSpace(p + [','] + t) == TrimRight(p) + [','] + CollapseCommaSpace(TrimLeft(t))
  {
    var s := p + [','] + t;
    assert s[0] == p[0];
    CommaAfterBlank(p, t);
    var u := TrimLeft(s);
    assert u[0] == ',' && u[1..] == t;
    BlankTrimRight(p);
    CollapseStep(s);
    CollapseComma(u);
    PrependEmpty(TrimRight(p), CollapseCommaSpace(TrimLeft(t)));
  }

  /** A text before a comma that is not all whitespace keeps its first character. */
  lemma {:induction false} CollapseAtWord(p: string, t: string)
    requires ',' !in p && p != [] && !Blank(p)
    ensures CollapseCommaSpace(p + [','] + t) == TrimRight(p) + [','] + CollapseCommaSpace(TrimLeft(t))
    decreases |p|, 0
  {
    var s := p + [','] + t;
    var c, p' := p[0], p[1..];
    var s' := p' + [','] + t;
    assert s[0] == c && s[1..] == s';
    var r' := TrimRight(p');
    assert TrimRight(p) == [c] + r' by {
      BlankTrimRight(p');
      assert Blank(p) <==> IsSpace(c) && Blank(p');
      assert p == [c] + p';
      TrimRightCons(c, p');
    }
    CommaAfterBlank(p, t);
    CollapseStep(s);
    CollapseAtComma(p', t);
    PrependChar(c, r', CollapseCommaSpace(TrimLeft(t)));
  }

  /** One step of the rewrite at a comma. */
  lemma CollapseComma(s: string)
    requires s != [] && s[0] == ','
    ensures CollapseCommaSpace(s) == [','] + CollapseCommaSpace(TrimLeft(s[1..]))
  {
  }

  lemma PrependEmpty(b: string, x: string)
    requires b == []
    ensures b + [','] + x == [','] + x
  {
  }

  lemma PrependChar(c: char, b: string, x: string)
    ensures [c] + (b + [','] + x) == [c] + b + [','] + x
  {
  }

  /** One step of the rewrite at any other character. */
  lemma CollapseStep(s: string)
    requires s != [] && s[0] != ','
    ensures CollapseCommaSpace(s) ==
      if IsSpace(s[0]) && StartsWithComma(TrimLeft(s)) then CollapseCommaSpace(TrimLeft(s))
      else [s[0]] + CollapseCommaSpace(s[1..])
  {
  }

  /** After a comma-free text, a comma comes first once leading whitespace is removed exactly when
      that text is blank. */
  lemma CommaAfterBlank(p: string, t: string)
    requires ',' !in p
    ensures StartsWithComma(TrimLeft(p + [','] + t)) <==> Blank(p)
    ensures Blank(p) ==> TrimLeft(p + [','] + t) == [','] + t
  {
    var ct := [','] + t;
    assert p + [','] + t == p + ct;
    var l := TrimLeft(p);
    assert TrimLeft(p + ct) == if Blank(p) then ct else l + ct by {
      TrimLeftAppend(p, ct);
      assert TrimLeft(ct) == ct;
    }
    assert l != [] ==> l[0] == p[|p| - |l|] && l[0] != ',';
  }

  /** Leading whitespace of a concatenation comes from its first part, and from the second only
      when the first is blank. */
  lemma {:induction false} TrimLeftAppend(p: string, u: string)
    ensures TrimLeft(p + u) == if Blank(p) then TrimLeft(u) else TrimLeft(p) + u
  {
    if p == [] {
      assert p + u == u;
    } else {
      assert (p + u)[1..] == p[1..] + u;
      assert Blank(p) <==> IsSpace(p[0]) && Blank(p[1..]);
      TrimLeftAppend(p[1..], u);
    }
  }

  /** Trailing whitespace of a text with one more character in front. */
  lemma {:induction false} TrimRightCons(c: char, q: string)
    ensures TrimRight([c] + q) == if IsSpace(c) && TrimRight(q) == [] then [] else [c] + TrimRight(q)
    decreases |q|
  {
    var s := [c] + q;
    if q != [] && IsSpace(q[|q| - 1]) {
      var q' := q[..|q| - 1];
      assert s[..|s| - 1] == [c] + q';
      TrimRightCons(c, q');
    }
  }

  /** A text right-trims to nothing exactly when it is blank. */
  lemma BlankTrimRight(q: string)
    ensures Blank(q) <==> TrimRight(q) == []
  {
    var r := TrimRight(q);
    if r != [] {
      assert r[|r| - 1] == q[|r| - 1];
    }
  }

  /** The first position of `c` in `s`. */
  lemma {:induction false} FirstIndex(s: string, c: char) returns (i: int)
    requires c in s
    ensures 0 <= i < |s| && s[i] == c && c !in s[..i]
  {
    if s[0] == c {
      i := 0;
    } else {
      var j := FirstIndex(s[1..], c);
      i := j + 1;
      assert s[..i] == [s[0]] + s[1..][..j];
    }
  }

  /** A text without the separator is a single piece. */
  lemma SplitNoSep(s: string, sep: char)
    requires sep !in s
    ensures Split(s, sep) == [s]
  {
    SplitPiece(s, [], sep);
    assert s + [] == s;
  }

  /** Splitting at the first separator. */
  lemma SplitAtSep(p: string, t: string, sep: char)
    requires sep !in p
    ensures Split(p + [sep] + t, sep) == [p] + Split(t, sep)
  {
    assert p + [sep] + t == p + ([sep] + t);
    assert ([sep] + t)[1..] == t;
    SplitPiece(p, [sep] + t, sep);
    assert p + [] == p;
  }

  /** Removing leading whitespace changes only the first piece, which loses its own. */
  lemma SplitTrimLeft(t: string)
    ensures Split(TrimLeft(t), ',') == [TrimLeft(Split(t, ',')[0])] + Split(t, ',')[1..]
  {
    var u := TrimLeft(t);
    var w := t[..|t| - |u|];
    assert t == w + u;
    assert Blank(w) && ',' !in w by {
      assert forall k :: 0 <= k < |w| ==> w[k] == t[k] && IsSpace(w[k]);
    }
    SplitAfterBlank(w, u);
  }

  lemma SplitAfterBlank(w: string, u: string)
    requires Blank(w) && ',' !in w
    requires u == [] || !IsSpace(u[0])
    ensures Split(u, ',') == [TrimLeft(Split(w + u, ',')[0])] + Split(w + u, ',')[1..]
  {
    var q := Split(u, ',');
    var h := q[0];
    assert q == [h] + q[1..];
    SplitPiece(w, u, ',');
    TrimLeftAppend(w, h);
    assert TrimLeft(h) == h by {
      SplitHead(u, ',');
      assert h != [] ==> h[0] == u[0];
    }
  }

  /** The first piece is a prefix of the text. */
  lemma {:induction false} SplitHead(s: string, sep: char)
    ensures |Split(s, sep)[0]| <= |s| && Split(s, sep)[0] == s[..|Split(s, sep)[0]|]
  {
    if s != [] {
      SplitHead(s[1..], sep);
    }
  }

  /** Cleaning a first piece in front of the others. */
  lemma CleanPiecesCons(p: string, q: seq<string>)
    requires |q| >= 1
    ensures CleanPieces([p] + q, false) == [TrimRight(p)] + CleanPieces([TrimLeft(q[0])] + q[1..], false)
  {
    assert ([p] + q)[1..] == q;
    assert ([TrimLeft(q[0])] + q[1..])[1..] == q[1..];
  }

  /** Joining a first piece in front of at least one other. */
  lemma JoinCons(a: string, rest: seq<string>, sep: char)
    requires |rest| >= 1
    ensures Join([a] + rest, sep) == a + [sep] + Join(rest, sep)
  {
    assert ([a] + rest)[1..] == rest;
  }

  // ---------------------------------------------------------------------------
  // str.title
  // ---------------------------------------------------------------------------

  /** `str.title()`: a letter is upper-cased when the character before it is not a letter
      and lower-cased otherwise; other characters are unchanged. */
  function TitleCase(s: string): (r: string)
    ensures |r| == |s|
    ensures forall i :: 0 <= i < |s| ==> IsLetter(r[i]) == IsLetter(s[i])
    ensures forall i :: 0 <= i < |s| && !IsLetter(s[i]) ==> r[i] == s[i]
  {
    TitleFrom(s, false)
  }

  function TitleFrom(s: string, afterLetter: bool): (r: string)
    ensures |r| == |s|
    ensures forall i :: 0 <= i < |s| ==> IsLetter(r[i]) == IsLetter(s[i])
    ensures forall i :: 0 <= i < |s| && !IsLetter(s[i]) ==> r[i] == s[i]
  {
    if s == [] then []
    else
      var c := if afterLetter then LowerChar(s[0]) else UpperChar(s[0]);
      [c] + TitleFrom(s[1..], IsLetter(s[0]))
  }

  /** Each letter is upper-cased at the start of a word (no letter just before it) and
      lower-cased inside a word. */
  lemma {:induction false} TitleCaseLetters(s: string)
    ensures forall i :: 0 <= i < |s| && IsLetter(s[i]) && (i == 0 || !IsLetter(s[i - 1])) ==>
      TitleCase(s)[i] == UpperChar(s[i])
    ensures forall i :: 0 <= i < |s| && IsLetter(s[i]) && i > 0 && IsLetter(s[i - 1]) ==>
      TitleCase(s)[i] == LowerChar(s[i])
  {
    TitleFromLetters(s, false);
    var r := TitleCase(s);
    assert r == TitleFrom(s, false);
    forall i | 0 <= i < |s| && IsLetter(s[i])
      ensures r[i] == if i == 0 || !IsLetter(s[i - 1]) then UpperChar(s[i]) else LowerChar(s[i])
    {
      assert r[i] == TitleFrom(s, false)[i];
    }
  }

  lemma {:induction false} TitleFromLetters(s: string, afterLetter: bool)
    ensures forall i :: 0 <= i < |s| ==>
      TitleFrom(s, afterLetter)[i] ==
        (if (if i == 0 then afterLetter else IsLetter(s[i - 1])) then LowerChar(s[i]) else UpperChar(s[i]))
  {
    if s != [] {
      TitleFromLetters(s[1..], IsLetter(s[0]));
      var r := TitleFrom(s, afterLetter);
      forall i | 0 < i < |s|
        ensures r[i] == (if IsLetter(s[i - 1]) then LowerChar(s[i]) else UpperChar(s[i]))
      {
        assert r[i] == TitleFrom(s[1..], IsLetter(s[0]))[i - 1];
        assert s[1..][i - 1] == s[i];
        if i > 1 {
          assert s[1..][i - 2] == s[i - 1];
        }
      }
    }
  }
}
