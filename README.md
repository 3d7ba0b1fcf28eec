# Movie recommender: serving-time core

A Dafny model of the query logic of a small collaborative-filtering movie
recommender (`app.py`). A user picks a movie by title. The app resolves the
title to a movieId and the movieId to a row of the movie × user rating matrix.
It asks a trained nearest-neighbour index for the `top_n + 1` closest rows and
drops the first one, which is meant to be the movie itself. It maps each
remaining row back to a movieId and reports `(1 - distance) * 100` as a
similarity percentage, keeping the index's order. Each recommended movie is
then enriched with its title, genres, the year parsed from the title, and
rating statistics. Its similarity is shown with a badge in one of three
colours.

Modules, one per concept of the program:

- `Wrappers`: `Option`, standing for Python's `None` and a present value.
- `Lookup`: the leftmost-match scan. Every lookup in the program has this
  semantics: a pandas filter followed by `.iloc[0]`, `dict.get`, and the
  reverse scan over dictionary items.
- `Tables`: movie and rating rows, plus lookup by title and by movieId.
- `TitleYear`: the search for `\((\d{4})\)` in a title.
- `MovieIndex`: the `movie_to_idx` dictionary, held as its items in insertion
  order. It has forward lookup, the reverse lookup (a method with a loop) and
  the round-trip lemmas.
- `Metadata`: `get_movie_metadata`, including `str(movieId)` for unknown
  movies, the rating count and the mean.
- `Recommend`: the post-processing loop of `get_recommendations` and its
  specification `Recommendations`. It also holds the lemmas on order,
  skipping, bounds and self-exclusion.
- `Badge`: the colour choice of `similarity_badge`.

The model follows the code where it departs from what the program evidently
intends. A movie should never be recommended to itself, but the code drops the
neighbour at position 0, whatever row it names; this is logged under Findings.
Similarity is not clamped to [0, 100]. A missing year or genre is reported as
`"N/A"`.

## Model

| member | source | states |
|---|---|---|
| Tables.FirstMovieWhere | app.py:18-21 | None exactly when no row satisfies the filter; otherwise the leftmost row that does, as a boolean filter followed by `.iloc[0]` (also app.py:40-43) |
| Tables.MovieByTitle | app.py:40-43 | None exactly when no movie has the exact title; otherwise the first row in table order with that title |
| Tables.MovieById | app.py:18-21 | None exactly when no movie has the id; otherwise the first row in table order with that id |
| MovieIndex.IndexOf | app.py:44-46 | `movie_to_idx.get`: None exactly when no item has the key; otherwise the row of the first item with that key |
| MovieIndex.MovieIdOf | app.py:33-37 | None exactly when no item has value `row`; otherwise the key of the first item in iteration order whose value is `row` |
| MovieIndex.ReverseLookupMovieId | app.py:33-37 | the early-return scan returns exactly `MovieIdOf`, and None iff no item has that value |
| MovieIndex.RoundTrip | app.py:33-37 | over an injective map, reverse lookup of a movie's row returns that movie |
| MovieIndex.ReverseRoundTrip | app.py:33-37 | with distinct keys, the movie a row maps back to is stored under that row |
| MovieIndex.RoundTripNeedsDistinctRows | app.py:33-37 | when two movies share a row, the round trip returns the first one, not the second |
| TitleYear.FindYearFrom | app.py:14 | the leftmost position at or after `from` where `(dddd)` matches, or None when there is no match there |
| TitleYear.YearFromTitle | app.py:13-15 | four digits taken from the leftmost `(dddd)` when one exists; "N/A" when none exists |
| TitleYear.NotAvailableIffNoYear | app.py:13-15 | the result is "N/A" if and only if the title holds no `(dddd)` |
| TitleYear.ToyStory | app.py:13-15 | "Toy Story (1995)" gives "1995" |
| TitleYear.FiveDigits | app.py:13-15 | "(12345)" gives "N/A" |
| TitleYear.ThreeDigits | app.py:13-15 | "(199)" gives "N/A" |
| TitleYear.LeftmostYearWins | app.py:13-15 | of two years in a title, the leftmost is returned |
| Metadata.NatToString | app.py:20 | decimal text: non-empty, all digits, no leading zero |
| Metadata.NatToStringRoundTrip | app.py:20 | the decimal text of n reads back as n |
| Metadata.IntToString | app.py:20 | `str(movieId)`: non-empty; starts with '-' exactly for a negative id, followed by at least one digit; digits otherwise; no leading zero unless the id is 0 (read-back in IntToStringRoundTrip) |
| Metadata.IntToStringExamples | app.py:20 | 7 gives "7", -42 gives "-42", 0 gives "0" |
| Metadata.IntToStringRoundTrip | app.py:20 | `str(movieId)` is an optional minus sign plus digits, and it reads back as the id |
| Metadata.RatingsOf | app.py:27-28 | a movie's ratings: no more than the table has rows, empty exactly when no row carries the id, and each entry is the rating of some row carrying the id |
| Metadata.MovieIds | app.py:27 | the movieId column: entry i is row i's movieId |
| Metadata.RatingCountIsOccurrences | app.py:27-30 | the rating count equals how many times the id occurs in the movieId column |
| Metadata.RatingsOfLastRow | app.py:27 | a row added to the table adds its rating at the end exactly when it carries the id, so the selection keeps table order |
| Metadata.RatingsOfAppend | app.py:27 | selecting a movie's ratings distributes over concatenated tables |
| Metadata.Mean | app.py:29 | `r.mean()`: the mean times the count is the sum (bounds in MeanWithinBounds) |
| Metadata.MeanWithinBounds | app.py:29 | the mean of values in [lo, hi] lies in [lo, hi] |
| Metadata.RatingsWithinScale | app.py:27 | the selected ratings stay within the table's rating scale |
| Metadata.MovieMetadata | app.py:17-31 | unknown id gives the degraded record (`str(id)`, "N/A", "N/A", no average, 0). A known id gives the first row's title and genres, with year == YearFromTitle(title). No ratings table gives count 0 and no average. An average exists iff count > 0, and it is then the mean of the movie's ratings. The count is the id's multiplicity among the rating rows |
| Metadata.AverageWithinScale | app.py:29 | a reported average lies within the rating scale of the table |
| Recommend.Similarity | app.py:57 | distance 0 gives 100 and distance 1 gives 0; the similarity is in [0, 100] iff the distance is in [0, 1] |
| Recommend.SimilarityStrictlyDecreasing | app.py:57 | similarity strictly decreases as distance grows, in both directions |
| Recommend.SimilarityUnclamped | app.py:57 | there is no clamping: distance 2 gives -100 and distance -0.5 gives 150 |
| Recommend.EmitOne | app.py:52-57 | one loop iteration yields at most one recommendation |
| Recommend.Emit | app.py:51-57 | never more recommendations than neighbours |
| Recommend.Recommendations | app.py:48-58 | empty for an empty neighbour list; otherwise at most `len(neighbours) - 1` entries, so at most `top_n` when `top_n + 1` are returned |
| Recommend.EmitAppend | app.py:51-57 | processing two runs of neighbours concatenates their results: order is kept and there is no re-sorting |
| Recommend.UnmappedNeighbourSkipped | app.py:54-56 | a neighbour row with no movie is skipped and leaves the rest of the result unchanged |
| Recommend.EmitAllMapped | app.py:51-57 | when every row maps, entry j is the j-th neighbour's movie with similarity `(1 - d_j) * 100` |
| Recommend.EmitProvenance | app.py:51-57 | every recommendation is some neighbour's movie with that neighbour's similarity |
| Recommend.EmitSimilarityAtMost | app.py:57 | neighbours at distance >= d yield similarities <= Similarity(d) |
| Recommend.EmitKeepsOrder | app.py:51-57 | neighbours with non-decreasing distance give recommendations with non-increasing similarity |
| Recommend.EmitSimilarityInRange | app.py:57 | distances in [0, 1] give similarities in [0, 100] |
| Recommend.FirstNeighbourIgnored | app.py:51 | the neighbour at position 0 never contributes, whatever row it names |
| Recommend.RecommendationsKeepOrder | app.py:47-58 | results sorted closest-first by the index come out most-similar-first |
| Recommend.GetRecommendations | app.py:39-58 | [] when no movie has the title; [] when its id has no row; otherwise Recommendations(kneighbors(row, top_n + 1)) for the resolved row |
| Recommend.WithoutRow | app.py:51 | (corrected self-exclusion) every kept neighbour has a row other than the query row; completeness and order are in WithoutRowAppend and WithoutRowSingle |
| Recommend.WithoutRowAppend | app.py:51 | (corrected self-exclusion) filtering distributes over concatenation, so order is kept |
| Recommend.WithoutRowSingle | app.py:51 | (corrected self-exclusion) a single neighbour is kept exactly when its row is not the query row |
| Recommend.WithoutAbsentRow | app.py:51 | (corrected self-exclusion) nothing is dropped when the query row is absent |
| Recommend.Take | app.py:47 | (corrected self-exclusion) the first `min(len, k)` neighbours, the cap at `top_n` |
| Recommend.RecommendationsExcludingSelf | app.py:51 | (corrected self-exclusion) at most `top_n` results; their content is given by ExcludingSelfAtPosition |
| Recommend.NeverRecommendsItself | app.py:51 | (corrected self-exclusion) the selected movie is never among its own recommendations |
| Recommend.ExcludingSelfAtPosition | app.py:47-58 | (corrected self-exclusion) wherever the query row stands, the result is the recommendations of all other neighbours, in order, capped at `top_n` |
| Recommend.ExcludingSelfInTie | app.py:51 | (corrected self-exclusion) in the tie of the Finding with a third neighbour, both other movies are kept, in order |
| Recommend.ExcludingSelfAgreesWhenSelfFirst | app.py:47-58 | when the query row comes first and only there, the corrected result equals the as-written one |
| Recommend.PositionalExclusionKeepsSelf | app.py:51 | as written, a distance-0 tie listed before the query row makes the movie recommend itself and drops the real neighbour |
| Badge.BadgeColor | app.py:60-67 | `#8e44ad` iff s >= 75; `#9b59b6` iff 50 <= s < 75; `#c0392b` iff s < 50. The three cases are exhaustive and disjoint |
| Badge.BadgeForDistance | app.py:60-67 | in distance terms the bands are d <= 0.25, 0.25 < d <= 0.5 and d > 0.5 |

## Left out

- The nearest-neighbour search (`model.kneighbors`, app.py:47) is a scikit-learn call. It is the parameter `kneighbors(row, k)`, whose result is taken as the flattened (row, distance) list. The lemmas about order assume it returns rows closest first.
- Errors raised inside that call are not modelled. These are an out-of-range matrix row (`IndexError`) and `n_neighbors` outside what the index allows.
- Rounding is not modelled. `round(..., 2)` on the similarity (app.py:57) and on the average rating (app.py:29) are left out, and both are exact `real` values: the similarity is `(1 - d) * 100` and the average is sum/count.
- Floating point as a whole is left out: distances and ratings are reals, with no NaN and no infinities.
- Metadata.RatingsOf: a rating cell holding NaN is not modelled. pandas `count()` would leave it out of the count and `mean()` would skip it, whereas the model counts every matching row.
- TitleYear.IsDigit: only the ASCII digits 0-9 are accepted. Python's `\d` on a `str` pattern also matches other Unicode decimal digits.
- Titles are strings. The `str(title)` conversion of a non-string cell, such as NaN giving "nan", is not modelled; neither is a NaN genres cell.
- Loading the pickled model and the CSV files, and the file-existence checks (app.py:83-99), are I/O.
- The Streamlit interface is presentation and not modelled: page set-up, styling, widgets, metrics, cards, the case-insensitive title search, and the HTML around the badge colour (app.py:11, 68-80, 100-250).
- The insights panel (app.py:253-269) is display-only aggregation.
- A Python dict never repeats a key; the model states this as `KeysDistinct` wherever a lemma needs it.

## Findings

| source | as written | input that shows it | evidently intended | confidence | as-written member | corrected member |
|---|---|---|---|---|---|---|
| app.py:51 | the loop starts at position 1, so whatever neighbour the index lists first is dropped, on the assumption that it is the query row | map [(10, 0), (20, 1)]; movie 10 is selected (row 0) and the index returns rows [1, 0], both at distance 0.0. The result is [movie 10 at 100] and movie 20 is lost | drop the query row wherever it appears and keep at most `top_n` others, so a movie is never recommended to itself | medium (depends on how the index orders ties at distance 0), not executed | Recommend.PositionalExclusionKeepsSelf | Recommend.RecommendationsExcludingSelf |

`GetRecommendations` keeps the positional rule, because that is what the program does.
`RecommendationsExcludingSelf` is the corrected definition. `NeverRecommendsItself` proves
the intended property about it. `ExcludingSelfAtPosition` shows that it keeps every other
neighbour, in order, wherever the query row stands. `ExcludingSelfAgreesWhenSelfFirst`
shows that the two definitions agree whenever the index puts the query row first and
nowhere else.
