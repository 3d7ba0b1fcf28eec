/**
 * The `movie_to_idx` dictionary: movieId -> row of the movie x user rating
 * matrix. A Python dict iterates in insertion order, so it is modelled as the
 * sequence of its (movieId, row) items in that order; `dict.get` and the
 * linear reverse scan both return the leftmost matching item.
 */
module MovieIndex {
  import opened Wrappers
  import opened Lookup

  /** The items of `movie_to_idx`, as (movieId, row index) pairs in iteration order. */
  type IndexMap = seq<(int, int)>

  /** A dictionary never holds the same key twice. */
  ghost predicate KeysDistinct(m: IndexMap) {
    forall i, j :: 0 <= i < j < |m| ==> m[i].0 != m[j].0
  }

  /** No two movies share a row: the map is injective. */
  ghost predicate RowsDistinct(m: IndexMap) {
    forall i, j :: 0 <= i < j < |m| ==> m[i].1 != m[j].1
  }

  /** `movie_to_idx.get(movieId, None)`: the row stored under the first item with key `movieId`. */
  function IndexOf(m: IndexMap, movieId: int): (r: Option<int>)
    ensures r.None? <==> forall i :: 0 <= i < |m| ==> m[i].0 != movieId
    ensures r.Some? ==>
              exists i :: 0 <= i < |m| && m[i] == (movieId, r.value) &&
                          forall k :: 0 <= k < i ==> m[k].0 != movieId
  {
    match First(m, (e: (int, int)) => e.0 == movieId)
    case None => None
    case Some(i) => Some(m[i].1)
  }

  /**
   * What `reverse_lookup_movie_id(row, m)` returns: the key of the first item,
   * in iteration order, whose value is `row`; `None` when no item has that value.
   */
  function MovieIdOf(m: IndexMap, row: int): (r: Option<int>)
    ensures r.None? <==> forall i :: 0 <= i < |m| ==> m[i].1 != row
    ensures r.Some? ==>
              exists i :: 0 <= i < |m| && m[i] == (r.value, row) &&
                          forall k :: 0 <= k < i ==> m[k].1 != row
  {
    match First(m, (e: (int, int)) => e.1 == row)
    case None => None
    case Some(i) => Some(m[i].0)
  }

  /** `reverse_lookup_movie_id`: a linear scan over the items that returns at the first hit. */
  method ReverseLookupMovieId(row: int, m: IndexMap) returns (r: Option<int>)
    ensures r == MovieIdOf(m, row)
    ensures r.None? <==> forall i :: 0 <= i < |m| ==> m[i].1 != row
  {
    var i := 0;
    while i < |m|
      invariant 0 <= i <= |m|
      invariant forall k :: 0 <= k < i ==> m[k].1 != row
    {
      var (k, v) := m[i];
      if v == row {
        return Some(k);
      }
      i := i + 1;
    }
    return None;
  }

  /** Round trip: over an injective map, the reverse lookup of a movie's row gives the movie back. */
  lemma RoundTrip(m: IndexMap, movieId: int)
    requires RowsDistinct(m)
    requires IndexOf(m, movieId).Some?
    ensures MovieIdOf(m, IndexOf(m, movieId).value) == Some(movieId)
  {
  }

  /** The other direction: the movie a row maps back to is stored under that row. */
  lemma ReverseRoundTrip(m: IndexMap, row: int)
    requires KeysDistinct(m)
    requires MovieIdOf(m, row).Some?
    ensures IndexOf(m, MovieIdOf(m, row).value) == Some(row)
  {
  }

  /** Without injectivity the round trip fails: two movies on row 0 both map back to the first. */
  lemma RoundTripNeedsDistinctRows()
    ensures var m := [(1, 0), (2, 0)];
            IndexOf(m, 2) == Some(0) && MovieIdOf(m, 0) == Some(1)
  {
    var m := [(1, 0), (2, 0)];
    assert m[0].1 == 0;
  }

}
