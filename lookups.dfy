/** The card decorations: `emoji_thumb`, `ambience_text` and `support_text` (app.py:23-44). */
module Lookups {
  import opened Text

  /** One entry of the icon table: a cuisine keyword and its picture. */
  datatype Icon = Icon(key: string, glyph: string)

  /** The icon table, in the order the source dictionary lists it; the first key found wins. */
  const Icons: seq<Icon> := [
    Icon("biryani", "\U{1F35B}"),
    Icon("pizza", "\U{1F355}"),
    Icon("burger", "\U{1F354}"),
    Icon("dessert", "\U{1F370}"),
    Icon("coffee", "\U{2615}"),
    Icon("dosa", "\U{1F95E}"),
    Icon("chinese", "\U{1F961}"),
    Icon("salad", "\U{1F957}"),
    Icon("shawarma", "\U{1F32F}"),
    Icon("seafood", "\U{1F364}")
  ]

  /** The plate shown when no keyword occurs. */
  const DefaultIcon: string := "\U{1F37D}\U{FE0F}"

  /** Keyword `i` of the table occurs in the lower-cased cuisine text. */
  predicate KeyIn(i: nat, text: string)
    requires i < |Icons|
  {
    IsSubstring(Icons[i].key, text)
  }

  /** `emoji_thumb`: the picture of the first keyword in table order that occurs in the
      lower-cased cuisine, or the plate when none does. */
  method EmojiThumb(cuisine: string) returns (icon: string)
    ensures icon == DefaultIcon <==> forall j :: 0 <= j < |Icons| ==> !KeyIn(j, Lower(cuisine))
    ensures icon != DefaultIcon ==>
      exists i :: 0 <= i < |Icons| && icon == Icons[i].glyph && KeyIn(i, Lower(cuisine))
        && forall j :: 0 <= j < i ==> !KeyIn(j, Lower(cuisine))
  {
    var text := Lower(cuisine);
    var i := 0;
    while i < |Icons|
      invariant 0 <= i <= |Icons|
      invariant forall j :: 0 <= j < i ==> !KeyIn(j, text)
    {
      if IsSubstring(Icons[i].key, text) {
        icon := Icons[i].glyph;
        assert KeyIn(i, text);
        return;
      }
      i := i + 1;
    }
    icon := DefaultIcon;
  }

  /** The four rating bands, best first: at least 4.5, at least 4.0, at least 3.5, below. */
  function Tier(r: real): (k: nat)
    ensures k < 4
  {
    if r >= 4.5 then 0 else if r >= 4.0 then 1 else if r >= 3.5 then 2 else 3
  }

  /** A higher rating never lands in a worse band. */
  lemma TierMonotone(r1: real, r2: real)
    requires r1 <= r2
    ensures Tier(r2) <= Tier(r1)
  {
  }

  const AmbienceLabels: seq<string> := ["Elegant & Calm", "Cozy & Vibrant", "Family Friendly", "Simple Ambience"]
  const SupportLabels: seq<string> := ["Excellent service", "Friendly staff", "Average response", "Basic support"]

  /** `ambience_text`: the label of the rating's band. */
  function AmbienceText(r: real): (t: string)
    ensures t == AmbienceLabels[Tier(r)]
  {
    if r >= 4.5 then "Elegant & Calm"
    else if r >= 4.0 then "Cozy & Vibrant"
    else if r >= 3.5 then "Family Friendly"
    else "Simple Ambience"
  }

  /** `support_text`: the label of the rating's band. */
  function SupportText(r: real): (t: string)
    ensures t == SupportLabels[Tier(r)]
  {
    if r >= 4.5 then "Excellent service"
    else if r >= 4.0 then "Friendly staff"
    else if r >= 3.5 then "Average response"
    else "Basic support"
  }

  /** The labels of each table are distinct, so a label tells its band. */
  lemma {:induction false} LabelsDistinct()
    ensures forall i, j :: 0 <= i < j < 4 ==> AmbienceLabels[i] != AmbienceLabels[j]
    ensures forall i, j :: 0 <= i < j < 4 ==> SupportLabels[i] != SupportLabels[j]
  {
    assert AmbienceLabels[0][0] == 'E' && AmbienceLabels[1][0] == 'C';
    assert AmbienceLabels[2][0] == 'F' && AmbienceLabels[3][0] == 'S';
    assert SupportLabels[0][0] == 'E' && SupportLabels[1][0] == 'F';
    assert SupportLabels[2][0] == 'A' && SupportLabels[3][0] == 'B';
    assert SupportLabels[1][1] == 'r' && SupportLabels[0][1] == 'x';
  }

  /** Both descriptions split the ratings the same way: two ratings get the same ambience
      label exactly when they get the same service label. */
  lemma {:induction false} SameBands(r1: real, r2: real)
    ensures AmbienceText(r1) == AmbienceText(r2) <==> SupportText(r1) == SupportText(r2)
    ensures AmbienceText(r1) == AmbienceText(r2) <==> Tier(r1) == Tier(r2)
  {
    LabelsDistinct();
    var a, b := Tier(r1), Tier(r2);
    if a < b {
      assert AmbienceLabels[a] != AmbienceLabels[b];
      assert SupportLabels[a] != SupportLabels[b];
    } else if b < a {
      assert AmbienceLabels[b] != AmbienceLabels[a];
      assert SupportLabels[b] != SupportLabels[a];
    }
  }
}
