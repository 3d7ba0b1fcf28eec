/**
 * Metadata enrichment (`get_movie_metadata`): the record shown beside each
 * recommended movie. Lookup never fails; an unknown movieId yields a
 * degraded record whose title is the id written in decimal.
 */
module Metadata {
  import opened Wrappers
  import opened Tables
  import opened TitleYear

  /** The record returned for one movie; `avgRating == None` stands for "N/A". */
  datatype MovieInfo = MovieInfo(
    title: string,
    genres: string,
    year: string,
    avgRating: Option<real>,
    ratingCount: nat)

  function DigitChar(d: nat): (c: char)
    requires d < 10
    ensures IsDigit(c)
  {
    "0123456789"[d]
  }

  function DigitValue(c: char): (d: nat)
    requires IsDigit(c)
    ensures d < 10
  {
    (c - '0') as nat
  }

  /** Decimal digits of `n`, most significant first, without leading zeros. */
  function NatToString(n: nat): (s: string)
    ensures |s| >= 1
    ensures forall c :: c in s ==> IsDigit(c)
    ensures n > 0 ==> s[0] != '0'
  {
    if n < 10 then [DigitChar(n)] else NatToString(n / 10) + [DigitChar(n % 10)]
  }

  /** `str(n)` for a Python int. */
  function IntToString(n: int): (s: string)
    ensures |s| >= 1
    ensures s[0] == '-' <==> n < 0
    ensures forall i :: (if n < 0 then 1 else 0) <= i < |s| ==> IsDigit(s[i])
    ensures n < 0 ==> |s| >= 2
    ensures n != 0 ==> s[if n < 0 then 1 else 0] != '0'
  {
    if n < 0 then "-" + NatToString(-n)
    else
      var digits := NatToString(n);
      assert digits[0] in digits;
      digits
  }

  /** The value of a string of decimal digits. */
  function ParseDigits(s: string): nat
    requires forall c :: c in s ==> IsDigit(c)
  {
    if s == [] then 0 else 10 * ParseDigits(s[..|s| - 1]) + DigitValue(s[|s| - 1])
  }

  /** The decimal text of a natural number reads back as that number. */
  lemma {:induction false} NatToStringRoundTrip(n: nat)
    ensures ParseDigits(NatToString(n)) == n
  {
    var s := NatToString(n);
    if n < 10 {
      assert s[..|s| - 1] == [];
    } else {
      NatToStringRoundTrip(n / 10);
      assert s[..|s| - 1] == NatToString(n / 10);
    }
  }

  /** `str(n)` is a sign followed by digits, and reads back as `n`. */
  lemma IntToStringRoundTrip(n: int)
    ensures var s := IntToString(n);
            if n < 0 then |s| >= 2 && s[0] == '-' && ParseDigits(s[1..]) == -n
            else ParseDigits(s) == n
  {
    NatToStringRoundTrip(if n < 0 then -n else n);
    if n < 0 {
      assert IntToString(n)[1..] == NatToString(-n);
    }
  }

  /** `str` on a few ids: no padding, a sign only for negatives. */
  lemma IntToStringExamples()
    ensures IntToString(7) == "7" && IntToString(-42) == "-42" && IntToString(0) == "0"
  {
  }

  /** `ratings_df[ratings_df["movieId"] == movieId]["rating"]`: the ratings of one movie, in table order. */
  function RatingsOf(ratings: seq<Rating>, movieId: int): (r: seq<real>)
    ensures |r| <= |ratings|
    ensures r == [] <==> forall i :: 0 <= i < |ratings| ==> ratings[i].movieId != movieId
    ensures forall j :: 0 <= j < |r| ==>
              exists i :: 0 <= i < |ratings| && ratings[i].movieId == movieId && ratings[i].rating == r[j]
  {
    if ratings == [] then []
    else
      var rest := RatingsOf(ratings[1..], movieId);
      assert forall i :: 1 <= i < |ratings| ==> ratings[i] == ratings[1..][i - 1];
      if ratings[0].movieId == movieId then [ratings[0].rating] + rest else rest
  }

  /** Adding a row to the table adds its rating at the end exactly when it carries the movie's id. */
  lemma RatingsOfLastRow(ratings: seq<Rating>, row: Rating, movieId: int)
    ensures RatingsOf(ratings + [row], movieId) ==
            RatingsOf(ratings, movieId) + (if row.movieId == movieId then [row.rating] else [])
  {
    RatingsOfAppend(ratings, [row], movieId);
    assert [row][1..] == [];
  }

  /** The movieId column of the ratings table. */
  function MovieIds(ratings: seq<Rating>): (ids: seq<int>)
    ensures |ids| == |ratings|
    ensures forall i :: 0 <= i < |ratings| ==> ids[i] == ratings[i].movieId
  {
    if ratings == [] then [] else [ratings[0].movieId] + MovieIds(ratings[1..])
  }

  /** Every rating row of a movie is counted once: the count is the id's multiplicity in the movieId column. */
  lemma {:induction false} RatingCountIsOccurrences(ratings: seq<Rating>, movieId: int)
    ensures |RatingsOf(ratings, movieId)| == multiset(MovieIds(ratings))[movieId]
  {
    if ratings != [] {
      RatingCountIsOccurrences(ratings[1..], movieId);
      assert MovieIds(ratings) == [ratings[0].movieId] + MovieIds(ratings[1..]);
      assert multiset(MovieIds(ratings)) == multiset([ratings[0].movieId]) + multiset(MovieIds(ratings[1..]));
    }
  }

  /** Selecting a movie's ratings distributes over concatenated tables. */
  lemma {:induction false} RatingsOfAppend(a: seq<Rating>, b: seq<Rating>, movieId: int)
    ensures RatingsOf(a + b, movieId) == RatingsOf(a, movieId) + RatingsOf(b, movieId)
  {
    if a != [] {
      RatingsOfAppend(a[1..], b, movieId);
      assert (a + b)[1..] == a[1..] + b;
    } else {
      assert a + b == b;
    }
  }

  function Sum(xs: seq<real>): real {
    if xs == [] then 0.0 else xs[0] + Sum(xs[1..])
  }

  /** `r.mean()` over a non-empty series. */
  function Mean(xs: seq<real>): (r: real)
    requires xs != []
    ensures (|xs| as real) * r == Sum(xs)
  {
    Sum(xs) / (|xs| as real)
  }

  lemma {:induction false} SumBounds(xs: seq<real>, lo: real, hi: real)
    requires forall i :: 0 <= i < |xs| ==> lo <= xs[i] <= hi
    ensures (|xs| as real) * lo <= Sum(xs) <= (|xs| as real) * hi
  {
    if xs != [] {
      SumBounds(xs[1..], lo, hi);
    }
  }

  /** A mean of values on a scale stays on that scale. */
  lemma MeanWithinBounds(xs: seq<real>, lo: real, hi: real)
    requires xs != []
    requires forall i :: 0 <= i < |xs| ==> lo <= xs[i] <= hi
    ensures lo <= Mean(xs) <= hi
  {
    SumBounds(xs, lo, hi);
    var n := |xs| as real;
    assert n * lo <= Sum(xs) <= n * hi;
    assert lo == (n * lo) / n && hi == (n * hi) / n;
  }

  /** `get_movie_metadata(movieId, movies_df, ratings_df)`; `ratings == None` when no ratings table was loaded. */
  function MovieMetadata(movieId: int, movies: seq<Movie>, ratings: Option<seq<Rating>>): (r: MovieInfo)
    ensures MovieById(movies, movieId).None? ==>
              r == MovieInfo(IntToString(movieId), NotAvailable, NotAvailable, None, 0)
    ensures MovieById(movies, movieId).Some? ==>
              var mv := MovieById(movies, movieId).value;
              && r.title == mv.title
              && r.year == YearFromTitle(mv.title)
              && r.genres == (if mv.genres.Some? then mv.genres.value else NotAvailable)
    ensures ratings.None? ==> r.ratingCount == 0 && r.avgRating.None?
    ensures r.avgRating.Some? <==> r.ratingCount > 0
    ensures r.avgRating.Some? ==>
              && ratings.Some?
              && RatingsOf(ratings.value, movieId) != []
              && r.avgRating.value == Mean(RatingsOf(ratings.value, movieId))
    ensures ratings.Some? && MovieById(movies, movieId).Some? ==>
              r.ratingCount == multiset(MovieIds(ratings.value))[movieId]
  {
    match MovieById(movies, movieId)
    case None => MovieInfo(IntToString(movieId), NotAvailable, NotAvailable, None, 0)
    case Some(mv) =>
      var genres := if mv.genres.Some? then mv.genres.value else NotAvailable;
      var year := YearFromTitle(mv.title);
      match ratings
      case None => MovieInfo(mv.title, genres, year, None, 0)
      case Some(rs) =>
        var r := RatingsOf(rs, movieId);
        RatingCountIsOccurrences(rs, movieId);
        if r == [] then MovieInfo(mv.title, genres, year, None, 0)
        else MovieInfo(mv.title, genres, year, Some(Mean(r)), |r|)
  }

  /** A reported average lies within the rating scale of the table. */
  lemma AverageWithinScale(movieId: int, movies: seq<Movie>, ratings: seq<Rating>, lo: real, hi: real)
    requires forall i :: 0 <= i < |ratings| ==> lo <= ratings[i].rating <= hi
    ensures var info := MovieMetadata(movieId, movies, Some(ratings));
            info.avgRating.Some? ==> lo <= info.avgRating.value <= hi
  {
    var xs := RatingsOf(ratings, movieId);
    RatingsWithinScale(ratings, movieId, lo, hi);
    if xs != [] {
      MeanWithinBounds(xs, lo, hi);
    }
  }

  lemma {:induction false} RatingsWithinScale(ratings: seq<Rating>, movieId: int, lo: real, hi: real)
    requires forall i :: 0 <= i < |ratings| ==> lo <= ratings[i].rating <= hi
    ensures forall i :: 0 <= i < |RatingsOf(ratings, movieId)| ==> lo <= RatingsOf(ratings, movieId)[i] <= hi
  {
    if ratings != [] {
      RatingsWithinScale(ratings[1..], movieId, lo, hi);
    }
  }

}
