# EatEase restaurant finder: a Dafny model of its data core

EatEase is a small Streamlit app. It loads a Swiggy restaurant table from a CSV file and
cleans it. It then recommends restaurants by city, cuisine, rating, price and a search
text, decorates each card with an icon and two rating-band captions, and lists the ten
trending cuisines. This project models the data core of `app.py` in Dafny and proves what
that core promises:

- `numeric.dfy` (module `Numeric`): `numeric_clean` and the median that fills missing
  costs.
  - A cell keeps only its digits and points.
  - What is left is read as a non-negative decimal: at least one digit and at most one
    point.
  - Anything else, including an empty result, is NaN. NaN is written `None`.
- `lookups.dfy` (module `Lookups`): `emoji_thumb`, `ambience_text` and `support_text`.
  - The icon table is scanned by a loop, as in the source.
  - The two caption functions share four rating bands.
- `loader.dfy` (module `Loader`): the normalising half of `load_data`.
  - The frame read from the file is a `Frame` of column names and rows. A row maps a
    column name to its cell text, after `fillna("")`.
  - The loop that appends missing required columns is a method.
  - It is followed by the defaults for unparsable numbers, the two derived columns
    `city_clean` and `cuisine_clean`, the removal of rows with a blank name, and
    `drop_duplicates` on `(name, city)`.
- `recommender.dfy` (module `Recommender`): `recommend`.
  - Four masks are applied one after another.
  - The rows are then sorted by rating, best first, and the first twenty kept.
- `trending.dfy` (module `Trending`): the trending-cuisine line.
  - Every comma-separated piece of every cuisine cell is stripped and title-cased.
  - The pieces are counted, and the ten most common are kept.
- `text.dfy` (module `Text`) and `seqs.dfy` (module `Seqs`): the pandas and Python string
  operations these build on.
  - Text: `lower`, `strip`, `title`, `split`, `in`, and the regular-expression rewrite
    `\s*,\s*` → `,`.
  - Sequences: boolean-mask selection, a stable descending sort, first-occurrence
    de-duplication, and `head`.

Numbers are exact reals, and NaN is `Option.None`. A comparison with NaN is false, as in
pandas. In particular, a restaurant whose cost is NaN never passes `cost <= max_cost`.

The fill value for the cost column is `cnum.median(skipna=True)`. When no cost cell of the
file parses, this median is itself NaN. The code then leaves every cost missing, so no
restaurant can be recommended. The model follows the code: `Loader.CostsAllMissing` states
this case. The cost is filled and non-negative only when some cost parses
(`Loader.CostsPresent`).

## Model

| member | source | states |
|---|---|---|
| `Numeric.CleanText` | app.py:13-19 | The cleaned text is exactly the digits and points of the cell, in their order. Removing the rupee sign and commas first, and stripping afterwards, adds nothing. |
| `Numeric.NumericClean` | app.py:12-21 | A cleaned value is never negative. A cell with no digit and no point is NaN, never 0. |
| `Numeric.ParseDecimal` | app.py:20-21 | `to_numeric(errors="coerce")` on a string of digits and points: a number is never negative, and the result is NaN exactly when the string has no digit or has a point in two places. |
| `Numeric.NumericCleanIgnoresNoise` | app.py:14-17 | Currency signs, separators, letters and spaces around the digits do not change the cleaned value. |
| `Numeric.NumericCleanOfNumerals` | app.py:17-21 | A non-empty cell made only of digits and points is parsed as it stands. |
| `Numeric.NumericCleanWhole` | app.py:12-21 | A whole number written with `m` digits cleans back to that number. |
| `Numeric.NumericCleanFixed` | app.py:12-21 | Round trip: `m` digits, a point and `k` digits clean back to `w + f / 10^k`. |
| `Numeric.Median` | app.py:69 | The median exists exactly when at least one value is present (`skipna`). |
| `Numeric.MedianBetweenMiddles` | app.py:69 | The median lies between the two middle values of the sorted values. |
| `Numeric.MedianWithinValues` | app.py:69 | The median is at least one of the values and at most one of them. |
| `Numeric.MedianHalfBelow` | app.py:69 | At least half of the values are at most the median. |
| `Numeric.MedianHalfAbove` | app.py:69 | At least half of the values are at least the median. |
| `Lookups.EmojiThumb` | app.py:23-32 | The plate is returned exactly when no keyword occurs in the lower-cased cuisine. Otherwise the result is the icon of the first keyword in table order that occurs. |
| `Lookups.Tier` | app.py:34-44 | Every rating falls in one of four bands: at least 4.5, at least 4.0, at least 3.5, below. |
| `Lookups.TierMonotone` | app.py:34-44 | A higher rating never falls in a worse band. |
| `Lookups.AmbienceText` | app.py:34-38 | The ambience caption is the label of the rating's band. |
| `Lookups.SupportText` | app.py:40-44 | The service caption is the label of the rating's band. |
| `Lookups.LabelsDistinct` | app.py:34-44 | The four labels of each caption are different, so a caption names its band. |
| `Lookups.SameBands` | app.py:34-44 | Two ratings get the same ambience caption exactly when they get the same service caption, and exactly when they fall in the same band. |
| `Loader.AddMissingColumns` | app.py:62-64 | Each required column the frame lacks is appended in list order and filled with empty text. Existing cells are kept, and afterwards every required column is present. |
| `Loader.AddedColumnsReadEmpty` | app.py:60-64 | An added column reads the same as a missing cell, so the six cells read from each row are unchanged. |
| `Loader.LoadData` | app.py:60-74 | The loaded table is the normalisation of the six cells of each row of the file's frame. |
| `Loader.CityClean` | app.py:71 | `city_clean` has no upper-case letter, and it is the lower-cased city with the whitespace at both ends removed (`Text.Trimmed`). |
| `Loader.CuisineClean` | app.py:72 | `cuisine_clean` is the lower-cased cuisine split at its commas, each piece trimmed on the sides that touch a comma, and joined again with bare commas. No whitespace is next to a comma, and apart from whitespace it has the same characters as the lower-cased cuisine. |
| `Loader.MakeRecord` | app.py:66-72 | A record keeps the row's name, city and cuisine, and its rating is never negative. |
| `Loader.LoadedNumbers` | app.py:66-69 | Parsed numbers are kept, with a rating count truncated to an integer. An unparsable rating is 3.5, an unparsable count is 0, and an unparsable cost takes the fill value. |
| `Loader.CostCells` | app.py:68 | The cost column after `numeric_clean`, one cell per row (this part is definitional). Every cost that parses is non-negative. |
| `Loader.Present` | app.py:69 | Every cell that is not NaN gives its value, as often as it occurs and nothing else (equal multisets). There are values exactly when some cell is not NaN. |
| `Loader.PresentFilter` | app.py:69 | Selecting among the values that skip NaN selects as many as selecting the cells that hold such a value. |
| `Loader.MedianCostExists` | app.py:68-69 | The cost fill value exists exactly when some row's cost parses. |
| `Loader.MedianCostBounds` | app.py:68-69 | The fill value is at least one parsed cost and at most another. |
| `Loader.MedianCostHalves` | app.py:68-69 | At least half the rows whose cost parses have a cost at most the fill value, and at least half have one at least the fill value. |
| `Loader.MedianCostNonNegative` | app.py:68-69 | The fill value, when there is one, is not negative. |
| `Loader.MedianCost` | app.py:69 | `cnum.median(skipna=True)`: the median of the costs that parse, NaN when none does; its properties are the MedianCost lemmas above. |
| `Loader.CostsPresent` | app.py:68-69 | When some cost parses, every loaded record has a cost, and it is not negative. |
| `Loader.CostsAllMissing` | app.py:68-69 | When no cost parses, no loaded record has a cost. |
| `Loader.DerivedColumns` | app.py:71-72 | `city_clean` is the lower-cased city with the whitespace at both ends removed, and has no upper case. `cuisine_clean` is the lower-cased cuisine split at commas, trimmed next to each comma and joined again; it has no upper case and no whitespace next to a comma, and it loses only whitespace. |
| `Loader.Normalize` | app.py:73 | Every loaded record has a non-blank name, and no two share a `(name, city)` pair. |
| `Loader.NormalizeKeepsFirst` | app.py:73 | Every loaded record is made from the first named row of its `(name, city)` pair. Every such row gives a loaded record. |
| `Loader.NormalizeInOrder` | app.py:73-74 | The loaded table is exactly the records of the first named row of every `(name, city)` pair, in the order of the rows of the file. |
| `Loader.FirstNamedRecords` | app.py:73 | Reference for the loaded rows: the record of row `j` is kept exactly when `j` is the first named row of its `(name, city)` pair, in row order. |
| `Loader.HasName` | app.py:73 | The mask `name.strip() != ""`: a row is kept exactly when its stripped name is not empty. |
| `Text.Lower` | app.py:71 | Lower-casing keeps the length, leaves no upper-case letter, and changes letters only. |
| `Text.Strip` | app.py:18 | Stripping gives the slice of its argument that has only whitespace before and after it and neither starts nor ends with whitespace (`Text.Trimmed`). |
| `Text.TrimmedUnique` | app.py:18 | At most one text is a given text trimmed, so the contract of `Strip` determines its result. |
| `Text.StripBlank` | app.py:73 | A name strips to nothing exactly when it is all whitespace. |
| `Text.CollapseNoSpaceAroundComma` | app.py:72 | After `re.sub(r"\s*,\s*", ",")` no comma has whitespace next to it. |
| `Text.CollapseKeepsNonSpace` | app.py:72 | The rewrite deletes whitespace only. |
| `Text.CollapseChars` | app.py:72 | Every character the rewrite leaves is a character of its input or a comma. |
| `Text.CollapseFixpoint` | app.py:72 | Text with no whitespace next to a comma is left unchanged. |
| `Text.CollapseIdempotent` | app.py:72 | Rewriting twice gives what rewriting once gives. |
| `Text.CollapseBySplit` | app.py:72 | The rewrite equals an independent definition: split at commas, remove whitespace at the start of every piece but the first and at the end of every piece but the last, and join with bare commas. |
| `Text.CollapseNoComma` | app.py:72 | A text without a comma is not changed by the rewrite. |
| `Text.CollapseCommaSpace` | app.py:72 | `re.sub(r"\s*,\s*", ",")`: every comma with the whitespace on either side becomes a bare comma; its properties are the Collapse lemmas above. |
| `Text.IsSubstring` | app.py:206 | Python's `sub in s`, used by the cuisine and search masks. |
| `Text.IsSubstringIff` | app.py:206 | `sub in s` holds exactly when `sub` occurs in `s` at some offset. |
| `Text.Split` | app.py:229 | `split(",")` gives at least one piece, and no piece contains the separator. |
| `Text.JoinSplit` | app.py:229 | Joining the pieces with the separator gives back the text. |
| `Text.SplitJoin` | app.py:229 | Splitting separator-free pieces joined by the separator gives back the pieces. |
| `Text.TitleCase` | app.py:229 | `title()` keeps the length and the letter positions, and changes letters only. |
| `Text.TitleCaseLetters` | app.py:229 | A letter is upper-cased at the start of a word and lower-cased inside one. |
| `Seqs.Filter` | app.py:202-209 | A boolean mask keeps exactly the rows that pass it, in order. |
| `Seqs.FilterFilter` | app.py:202-209 | Two masks in a row select what their conjunction selects. |
| `Seqs.FilterMonotone` | app.py:202 | A weaker mask never selects fewer rows. |
| `Seqs.SortDesc` | app.py:210 | `sort_values(ascending=False)` returns a permutation of its input, sorted non-increasing. |
| `Seqs.SortDescStable` | app.py:229 | Elements with equal keys come out in the order they went in. |
| `Seqs.Head` | app.py:210 | `head(n)` is the first `n` rows, or all of them when there are fewer. |
| `Seqs.HeadSubMultiset` | app.py:210 | `head(n)` returns no row more often than its input holds it. |
| `Seqs.HeadComplete` | app.py:210 | After sorting and `head(n)`, an element is left out only when `n` elements are kept, none with a smaller key. |
| `Seqs.DedupUnique` | app.py:73 | After `drop_duplicates` no two rows share a key. |
| `Seqs.DedupKeys` | app.py:73 | `drop_duplicates` keeps every key present. |
| `Seqs.DedupFilterSound` | app.py:73 | Each row kept by masking and then de-duplicating is the first passing row of its key. |
| `Seqs.DedupFilterComplete` | app.py:73 | The first passing row of every key is kept. |
| `Seqs.Dedup` | app.py:73 | `drop_duplicates` keeps no more rows than it is given, and only rows it is given. |
| `Seqs.FirstRows` | app.py:73 | Reference for masking then de-duplicating: element `j` is kept exactly when it is the first passing element of its key, in input order. |
| `Seqs.DedupFilterFirstRows` | app.py:73 | Masking and then `drop_duplicates` give exactly the first passing row of every key, in input order. |
| `Recommender.Recommend` | app.py:201-210 | At most twenty results, sorted by rating from highest to lowest. Each result is a row of the table that meets the thresholds and every active city, cuisine and search filter. No row is returned more often than it occurs among the acceptable rows. |
| `Recommender.CandidatesAccepted` | app.py:202-209 | The chain of masks selects exactly the acceptable rows, in table order. A filter whose choice is `(Any)` or empty is skipped. |
| `Recommender.Candidates` | app.py:202-209 | The threshold, city, cuisine and search masks applied in the order of the source; `CandidatesAccepted` states what they select. |
| `Recommender.RecommendLength` | app.py:210 | Twenty results, or all the acceptable rows when there are fewer. |
| `Recommender.RecommendComplete` | app.py:201-210 | An acceptable row is left out only by the cap: twenty rows are returned, each rated at least as high. |
| `Recommender.MinRatingMonotone` | app.py:202 | Raising the minimum rating never gives more results. |
| `Recommender.MaxCostMonotone` | app.py:202 | Lowering the maximum cost never gives more results. |
| `Recommender.MealIgnored` | app.py:201-210 | The meal choice never changes the result. |
| `Trending.TokensShape` | app.py:229 | Every counted piece is non-empty, has no comma and has no whitespace at either end. |
| `Trending.FirstSeenProperties` | app.py:229 | The `Counter` keys have no repeats and are exactly the pieces. |
| `Trending.TrendingCuisines` | app.py:229 | At most ten pieces, each shown once. Every one is a counted piece, ordered by count from highest to lowest. |
| `Trending.TrendingComplete` | app.py:229 | A piece is left out only when ten are shown, each counted at least as often. |
| `Trending.TrendingLength` | app.py:229 | Ten pieces, or every distinct piece when there are fewer. |
| `Trending.TrendingTies` | app.py:229 | Among pieces with equal counts, those shown come first, in first-seen order. |
| `Trending.PieceTokens` | app.py:229 | `c.strip().title()` for every non-blank piece `c` of one cuisine cell, in order. |
| `Trending.Tokens` | app.py:229 | The pieces of every cuisine cell, row by row; `TokensShape` states their shape. |
| `Trending.FirstSeen` | app.py:229 | The `Counter` keys in first-seen order; `FirstSeenProperties` states that they are the distinct pieces. |
| `Trending.CountOf` | app.py:229 | The `Counter` value of a piece: how many times it occurs. |

## Left out

- File input is not modelled: `read_csv` in chunks, skipping bad lines, and the stop when the file is missing. The model starts from the frame that `read_csv` and `fillna("")` produce.
- Caching, the Streamlit page, the CSS and the card markup are not modelled. So are the session storage, the feedback and chat features, and the fixed favourites list, which are not part of the data core.
- Columns of the CSV other than the six the program reads are carried by `Frame`, but the loaded `Record` drops them, because nothing downstream reads them.
- Floating point is not modelled: numbers are exact reals, with no rounding and no overflow.
- `Loader.LoadedNumbers` does not model the 64-bit overflow of `astype(int)` for a huge rating count.
- `Text.Lower`, `Text.Strip`, `Text.TitleCase` and `Text.IsSpace` cover ASCII only. The whitespace is tab, line feed, vertical tab, form feed, carriage return, the separators 0x1C to 0x1F and space. Non-ASCII whitespace (U+0085, U+00A0 and the Unicode space separators) and non-ASCII case mapping are not modelled.
- `Recommender.Mentions` models `str.contains(q)` as a plain substring test. In the source `q` is a regular expression, so a search text with metacharacters matches differently or raises; this is not modelled.
- `Recommender.Recommend`: the order among equal ratings is the model's own, the input order. pandas' default sort does not promise one, and nothing is proved about it.
- `Lookups.EmojiThumb` takes a string. The `(cuisine or "")` guard for a missing cell is not needed, because every cell is text after `fillna("")`.
- `Numeric.ParseDecimal` covers only strings of digits and points, the only strings `numeric_clean` passes on. The rest of `to_numeric`'s grammar (signs, exponents, `inf`) cannot occur and is not modelled.
- `Trending.TrendingCuisines` takes `Counter.most_common(10)` as a stable sort by count, which is how Python implements it. Ties therefore keep first-seen order.
