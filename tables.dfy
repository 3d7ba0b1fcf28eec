/**
 * The two reference tables the recommender reads: the movie table
 * (movieId, title, genres) and the optional ratings table
 * (movieId, userId, rating). Rows are kept in table order.
 */
module Tables {
  import opened Wrappers
  import opened Lookup

  /**
   * One row of the movie table. `genres` is `None` when the table has no
   * genres column, which is the case `row.get("genres", "N/A")` guards.
   */
  datatype Movie = Movie(movieId: int, title: string, genres: Option<string>)

  /** One row of the ratings table. */
  datatype Rating = Rating(movieId: int, userId: int, rating: real)

  /** The first row of the movie table that satisfies `p`: a pandas boolean filter followed by `.iloc[0]`. */
  function FirstMovieWhere(movies: seq<Movie>, p: Movie -> bool): (r: Option<Movie>)
    ensures r.None? <==> forall i :: 0 <= i < |movies| ==> !p(movies[i])
    ensures r.Some? ==> p(r.value)
    ensures r.Some? ==>
              exists i :: 0 <= i < |movies| && movies[i] == r.value &&
                          forall k :: 0 <= k < i ==> !p(movies[k])
  {
    match First(movies, p)
    case None => None
    case Some(i) => Some(movies[i])
  }

  /** The first movie whose title is exactly `title` (`movies_df[movies_df["title"] == t].iloc[0]`). */
  function MovieByTitle(movies: seq<Movie>, title: string): (r: Option<Movie>)
    ensures r.None? <==> forall i :: 0 <= i < |movies| ==> movies[i].title != title
    ensures r.Some? ==> r.value.title == title
    ensures r.Some? ==>
              exists i :: 0 <= i < |movies| && movies[i] == r.value &&
                          forall k :: 0 <= k < i ==> movies[k].title != title
  {
    FirstMovieWhere(movies, (mv: Movie) => mv.title == title)
  }

  /** The first movie whose id is `movieId` (`movies_df[movies_df["movieId"] == id].iloc[0]`). */
  function MovieById(movies: seq<Movie>, movieId: int): (r: Option<Movie>)
    ensures r.None? <==> forall i :: 0 <= i < |movies| ==> movies[i].movieId != movieId
    ensures r.Some? ==> r.value.movieId == movieId
    ensures r.Some? ==>
              exists i :: 0 <= i < |movies| && movies[i] == r.value &&
                          forall k :: 0 <= k < i ==> movies[k].movieId != movieId
  {
    FirstMovieWhere(movies, (mv: Movie) => mv.movieId == movieId)
  }

}
