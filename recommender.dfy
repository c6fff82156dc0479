/** `recommend` (app.py:201-210): threshold, city, cuisine and search masks applied one after
    the other to the loaded table, then the survivors sorted by rating, best first, and the
    first twenty kept. */
module Recommender {
  import opened Seqs
  import opened Text
  import opened Loader

  /** The city choice that selects every city. */
  const AnyCity: string := "(Any)"

  /** `head(20)` */
  const MaxResults: nat := 20

  /** `rating >= min_rating` and `cost <= max_cost`; a missing (NaN) cost compares false. */
  predicate MeetsThresholds(x: Record, minRating: real, maxCost: real) {
    x.rating >= minRating && x.cost.Some? && x.cost.value <= maxCost
  }

  /** `city_clean == city.lower()` */
  predicate InCity(x: Record, city: string) {
    x.cityClean == Lower(city)
  }

  /** Some requested cuisine, lower-cased, occurs in `cuisine_clean`. */
  predicate HasSomeCuisine(x: Record, cuisines: seq<string>) {
    exists c :: c in cuisines && IsSubstring(Lower(c), x.cuisineClean)
  }

  /** The lower-cased query occurs in the lower-cased name or the lower-cased raw cuisine. */
  predicate Mentions(x: Record, query: string) {
    IsSubstring(Lower(query), Lower(x.name)) || IsSubstring(Lower(query), Lower(x.cuisine))
  }

  // The four masks, as the source applies them.

  function ThresholdMask(minRating: real, maxCost: real): Record -> bool {
    x => MeetsThresholds(x, minRating, maxCost)
  }

  function CityMask(city: string): Record -> bool { x => InCity(x, city) }

  function CuisineMask(cuisines: seq<string>): Record -> bool { x => HasSomeCuisine(x, cuisines) }

  function SearchMask(search: string): Record -> bool { x => Mentions(x, search) }

  function ByCity(data: seq<Record>, city: string): seq<Record> {
    if city != AnyCity then Filter(data, CityMask(city)) else data
  }

  function ByCuisines(data: seq<Record>, cuisines: seq<string>): seq<Record> {
    if cuisines != [] then Filter(data, CuisineMask(cuisines)) else data
  }

  function BySearch(data: seq<Record>, search: string): seq<Record> {
    if search != [] then Filter(data, SearchMask(search)) else data
  }

  /** The rows left after the four masks, in table order. */
  function Candidates(df: seq<Record>, city: string, cuisines: seq<string>, minRating: real, maxCost: real, search: string): seq<Record> {
    BySearch(ByCuisines(ByCity(Filter(df, ThresholdMask(minRating, maxCost)), city), cuisines), search)
  }

  function RatingKey(x: Record): real { x.rating }

  /** `recommend`. The meal choice is accepted and not used. */
  function Recommend(df: seq<Record>, city: string, cuisines: seq<string>, minRating: real, maxCost: real,
                     meal: string, search: string): (r: seq<Record>)
    ensures |r| <= MaxResults
    ensures SortedDesc(r, RatingKey)
    ensures forall x :: x in r ==> x in df && Accepts(city, cuisines, minRating, maxCost, search)(x)
    ensures multiset(r) <= multiset(Filter(df, Accepts(city, cuisines, minRating, maxCost, search)))
  {
    var c := Candidates(df, city, cuisines, minRating, maxCost, search);
    CandidatesAccepted(df, city, cuisines, minRating, maxCost, search);
    SortDescLength(c, RatingKey);
    var sorted := SortDesc(c, RatingKey);
    HeadSubMultiset(sorted, MaxResults);
    Head(sorted, MaxResults)
  }

  // ---------------------------------------------------------------------------
  // The masks as one condition
  // ---------------------------------------------------------------------------

  /** What a row must satisfy to be recommended: each mask is skipped when its choice is
      `(Any)` or empty. */
  predicate Acceptable(x: Record, city: string, cuisines: seq<string>, minRating: real, maxCost: real, search: string) {
    && MeetsThresholds(x, minRating, maxCost)
    && (city != AnyCity ==> InCity(x, city))
    && (cuisines != [] ==> HasSomeCuisine(x, cuisines))
    && (search != [] ==> Mentions(x, search))
  }

  function Accepts(city: string, cuisines: seq<string>, minRating: real, maxCost: real, search: string): Record -> bool {
    x => Acceptable(x, city, cuisines, minRating, maxCost, search)
  }

  function UpToCity(city: string, minRating: real, maxCost: real): Record -> bool {
    x => MeetsThresholds(x, minRating, maxCost) && (city != AnyCity ==> InCity(x, city))
  }

  function UpToCuisine(city: string, cuisines: seq<string>, minRating: real, maxCost: real): Record -> bool {
    x => UpToCity(city, minRating, maxCost)(x) && (cuisines != [] ==> HasSomeCuisine(x, cuisines))
  }

  /** Applying a mask only when a choice is made, after `p`, selects what `both` selects. */
  lemma {:induction false} MaybeFilter(df: seq<Record>, p: Record -> bool, active: bool, q: Record -> bool, both: Record -> bool)
    requires forall x :: both(x) == (p(x) && (active ==> q(x)))
    ensures (if active then Filter(Filter(df, p), q) else Filter(df, p)) == Filter(df, both)
  {
    if active {
      FilterFilter(df, p, q, both);
    } else {
      FilterSame(df, p, both);
    }
  }

  /** The chain of masks selects exactly the acceptable rows, in table order. */
  lemma {:induction false} CandidatesAccepted(df: seq<Record>, city: string, cuisines: seq<string>, minRating: real, maxCost: real, search: string)
    ensures Candidates(df, city, cuisines, minRating, maxCost, search) == Filter(df, Accepts(city, cuisines, minRating, maxCost, search))
  {
    var m1 := ThresholdMask(minRating, maxCost);
    var m2 := UpToCity(city, minRating, maxCost);
    var m3 := UpToCuisine(city, cuisines, minRating, maxCost);
    var m4 := Accepts(city, cuisines, minRating, maxCost, search);
    MaybeFilter(df, m1, city != AnyCity, CityMask(city), m2);
    MaybeFilter(df, m2, cuisines != [], CuisineMask(cuisines), m3);
    MaybeFilter(df, m3, search != [], SearchMask(search), m4);
  }

  // ---------------------------------------------------------------------------
  // Properties of the result
  // ---------------------------------------------------------------------------

  /** Twenty results, or all the acceptable rows when there are fewer. */
  lemma {:induction false} RecommendLength(df: seq<Record>, city: string, cuisines: seq<string>, minRating: real, maxCost: real, meal: string, search: string)
    ensures var n := |Filter(df, Accepts(city, cuisines, minRating, maxCost, search))|;
      |Recommend(df, city, cuisines, minRating, maxCost, meal, search)| == if n < MaxResults then n else MaxResults
  {
    var c := Candidates(df, city, cuisines, minRating, maxCost, search);
    CandidatesAccepted(df, city, cuisines, minRating, maxCost, search);
    SortDescLength(c, RatingKey);
  }

  /** An acceptable row is left out only when twenty rows are returned, each rated at least as
      high as it. */
  lemma {:induction false} RecommendComplete(df: seq<Record>, city: string, cuisines: seq<string>, minRating: real, maxCost: real, meal: string, search: string, x: Record)
    requires x in df && Acceptable(x, city, cuisines, minRating, maxCost, search)
    ensures var r := Recommend(df, city, cuisines, minRating, maxCost, meal, search);
      x in r || (|r| == MaxResults && forall y :: y in r ==> y.rating >= x.rating)
  {
    var c := Candidates(df, city, cuisines, minRating, maxCost, search);
    CandidatesAccepted(df, city, cuisines, minRating, maxCost, search);
    assert Accepts(city, cuisines, minRating, maxCost, search)(x);
    HeadComplete(c, RatingKey, MaxResults, x);
  }

  /** A stricter rating floor never gives more results. */
  lemma {:induction false} MinRatingMonotone(df: seq<Record>, city: string, cuisines: seq<string>, lo: real, hi: real, maxCost: real, meal: string, search: string)
    requires lo <= hi
    ensures |Recommend(df, city, cuisines, hi, maxCost, meal, search)| <= |Recommend(df, city, cuisines, lo, maxCost, meal, search)|
  {
    FilterMonotone(df, Accepts(city, cuisines, hi, maxCost, search), Accepts(city, cuisines, lo, maxCost, search));
    RecommendLength(df, city, cuisines, hi, maxCost, meal, search);
    RecommendLength(df, city, cuisines, lo, maxCost, meal, search);
  }

  /** A lower cost ceiling never gives more results. */
  lemma {:induction false} MaxCostMonotone(df: seq<Record>, city: string, cuisines: seq<string>, minRating: real, lo: real, hi: real, meal: string, search: string)
    requires lo <= hi
    ensures |Recommend(df, city, cuisines, minRating, lo, meal, search)| <= |Recommend(df, city, cuisines, minRating, hi, meal, search)|
  {
    FilterMonotone(df, Accepts(city, cuisines, minRating, lo, search), Accepts(city, cuisines, minRating, hi, search));
    RecommendLength(df, city, cuisines, minRating, lo, meal, search);
    RecommendLength(df, city, cuisines, minRating, hi, meal, search);
  }

  /** The meal choice never changes the result. */
  lemma {:induction false} MealIgnored(df: seq<Record>, city: string, cuisines: seq<string>, minRating: real, maxCost: real, meal1: string, meal2: string, search: string)
    ensures Recommend(df, city, cuisines, minRating, maxCost, meal1, search) == Recommend(df, city, cuisines, minRating, maxCost, meal2, search)
  {
  }
}
