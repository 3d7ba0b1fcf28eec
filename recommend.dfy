/**
 * Recommendation post-processing (`get_recommendations`): resolve the selected
 * title to a movie and the movie to a matrix row, ask the nearest-neighbour
 * index for `top_n + 1` rows, drop the neighbour at position 0, map each
 * remaining row back to a movieId (skipping rows with no movie) and turn each
 * distance into a similarity percentage, keeping the neighbours' order.
 */
module Recommend {
  import opened Wrappers
  import opened Tables
  import opened MovieIndex

  /** One neighbour returned by the index: (row index, distance). */
  type Neighbour = (int, real)

  /** One recommendation: `{"movieId": ..., "similarity": ...}`. */
  datatype Rec = Rec(movieId: int, similarity: real)

  /** `(1 - d) * 100`, unclamped and unrounded. */
  function Similarity(d: real): (s: real)
    ensures d == 0.0 ==> s == 100.0
    ensures d == 1.0 ==> s == 0.0
    ensures 0.0 <= d <= 1.0 <==> 0.0 <= s <= 100.0
  {
    (1.0 - d) * 100.0
  }

  /** The further the neighbour, the lower its similarity. */
  lemma SimilarityStrictlyDecreasing(d1: real, d2: real)
    ensures d1 < d2 <==> Similarity(d1) > Similarity(d2)
  {
  }

  /** Nothing bounds the similarity of a distance outside [0, 1]. */
  lemma SimilarityUnclamped()
    ensures Similarity(2.0) == -100.0 && Similarity(-0.5) == 150.0
  {
  }

  /** The body of one loop iteration: the recommendation a neighbour yields, if any. */
  function EmitOne(n: Neighbour, m: IndexMap): (r: seq<Rec>)
    ensures |r| <= 1
  {
    match MovieIdOf(m, n.0)
    case None => []
    case Some(id) => [Rec(id, Similarity(n.1))]
  }

  /** The recommendations a run of neighbours yields, in neighbour order. */
  function Emit(ns: seq<Neighbour>, m: IndexMap): (r: seq<Rec>)
    ensures |r| <= |ns|
  {
    if ns == [] then [] else EmitOne(ns[0], m) + Emit(ns[1..], m)
  }

  /** The result of the loop over positions 1 .. len(neighbours) - 1. */
  function Recommendations(ns: seq<Neighbour>, m: IndexMap): (r: seq<Rec>)
    ensures ns == [] ==> r == []
    ensures ns != [] ==> |r| <= |ns| - 1
  {
    if ns == [] then [] else Emit(ns[1..], m)
  }

  /** Processing neighbours in two runs gives the two results one after the other. */
  lemma {:induction false} EmitAppend(a: seq<Neighbour>, b: seq<Neighbour>, m: IndexMap)
    ensures Emit(a + b, m) == Emit(a, m) + Emit(b, m)
  {
    if a == [] {
      assert a + b == b;
    } else {
      var ab := a + b;
      assert ab[0] == a[0] && ab[1..] == a[1..] + b;
      EmitAppend(a[1..], b, m);
      calc {
        Emit(ab, m);
        EmitOne(a[0], m) + Emit(a[1..] + b, m);
        EmitOne(a[0], m) + (Emit(a[1..], m) + Emit(b, m));
        (EmitOne(a[0], m) + Emit(a[1..], m)) + Emit(b, m);
      }
    }
  }

  /** A neighbour with no movie is skipped and leaves the rest of the result as it was. */
  lemma UnmappedNeighbourSkipped(a: seq<Neighbour>, n: Neighbour, b: seq<Neighbour>, m: IndexMap)
    requires MovieIdOf(m, n.0).None?
    ensures Emit(a + [n] + b, m) == Emit(a + b, m)
  {
    EmitAppend(a + [n], b, m);
    EmitAppend(a, [n], m);
    EmitAppend(a, b, m);
    assert Emit([n], m) == EmitOne(n, m) + Emit([], m);
  }

  /** When every row maps to a movie, the j-th recommendation is the j-th neighbour's movie and similarity. */
  lemma {:induction false} EmitAllMapped(ns: seq<Neighbour>, m: IndexMap)
    requires forall i :: 0 <= i < |ns| ==> MovieIdOf(m, ns[i].0).Some?
    ensures |Emit(ns, m)| == |ns|
    ensures forall j :: 0 <= j < |ns| ==>
              Emit(ns, m)[j] == Rec(MovieIdOf(m, ns[j].0).value, Similarity(ns[j].1))
  {
    if ns != [] {
      EmitAllMapped(ns[1..], m);
      forall j | 1 <= j < |ns|
        ensures Emit(ns, m)[j] == Rec(MovieIdOf(m, ns[j].0).value, Similarity(ns[j].1))
      {
        assert ns[1..][j - 1] == ns[j];
      }
    }
  }

  /** Every recommendation comes from some neighbour: its movie is that row's movie and its similarity that distance's. */
  lemma {:induction false} EmitProvenance(ns: seq<Neighbour>, m: IndexMap, j: nat)
    requires j < |Emit(ns, m)|
    ensures exists i :: 0 <= i < |ns| &&
              MovieIdOf(m, ns[i].0) == Some(Emit(ns, m)[j].movieId) &&
              Emit(ns, m)[j].similarity == Similarity(ns[i].1)
  {
    var head := EmitOne(ns[0], m);
    if j < |head| {
      assert MovieIdOf(m, ns[0].0) == Some(Emit(ns, m)[j].movieId);
    } else {
      EmitProvenance(ns[1..], m, j - |head|);
      var i :| 0 <= i < |ns[1..]| &&
               MovieIdOf(m, ns[1..][i].0) == Some(Emit(ns[1..], m)[j - |head|].movieId) &&
               Emit(ns[1..], m)[j - |head|].similarity == Similarity(ns[1..][i].1);
      assert ns[1..][i] == ns[i + 1];
    }
  }

  /** Neighbours no closer than `d` yield similarities no higher than `d`'s. */
  lemma {:induction false} EmitSimilarityAtMost(ns: seq<Neighbour>, m: IndexMap, d: real)
    requires forall i :: 0 <= i < |ns| ==> d <= ns[i].1
    ensures forall j :: 0 <= j < |Emit(ns, m)| ==> Emit(ns, m)[j].similarity <= Similarity(d)
  {
    forall j | 0 <= j < |Emit(ns, m)| ensures Emit(ns, m)[j].similarity <= Similarity(d) {
      EmitProvenance(ns, m, j);
    }
  }

  predicate DistancesNonDecreasing(ns: seq<Neighbour>) {
    forall i, j :: 0 <= i < j < |ns| ==> ns[i].1 <= ns[j].1
  }

  predicate SimilaritiesNonIncreasing(rs: seq<Rec>) {
    forall i, j :: 0 <= i < j < |rs| ==> rs[i].similarity >= rs[j].similarity
  }

  /** No re-sorting is needed: neighbours closest-first give recommendations most-similar-first. */
  lemma {:induction false} EmitKeepsOrder(ns: seq<Neighbour>, m: IndexMap)
    requires DistancesNonDecreasing(ns)
    ensures SimilaritiesNonIncreasing(Emit(ns, m))
  {
    if ns != [] {
      var rest := ns[1..];
      EmitKeepsOrder(rest, m);
      EmitSimilarityAtMost(rest, m, ns[0].1);
      var head := EmitOne(ns[0], m);
      var r := Emit(ns, m);
      assert r == head + Emit(rest, m);
      forall i, j | 0 <= i < j < |r| ensures r[i].similarity >= r[j].similarity {
        if i < |head| {
          assert r[i].similarity == Similarity(ns[0].1);
          assert r[j] == Emit(rest, m)[j - |head|];
        } else {
          assert r[i] == Emit(rest, m)[i - |head|];
          assert r[j] == Emit(rest, m)[j - |head|];
        }
      }
    }
  }

  /** Neighbours at distances in [0, 1] yield similarities in [0, 100]. */
  lemma {:induction false} EmitSimilarityInRange(ns: seq<Neighbour>, m: IndexMap)
    requires forall i :: 0 <= i < |ns| ==> 0.0 <= ns[i].1 <= 1.0
    ensures forall j :: 0 <= j < |Emit(ns, m)| ==> 0.0 <= Emit(ns, m)[j].similarity <= 100.0
  {
    forall j | 0 <= j < |Emit(ns, m)| ensures 0.0 <= Emit(ns, m)[j].similarity <= 100.0 {
      EmitProvenance(ns, m, j);
    }
  }

  /** The neighbour at position 0 never contributes, whatever row it names. */
  lemma FirstNeighbourIgnored(n: Neighbour, n': Neighbour, rest: seq<Neighbour>, m: IndexMap)
    ensures Recommendations([n] + rest, m) == Recommendations([n'] + rest, m) == Emit(rest, m)
  {
  }

  /** The recommendations are ordered when the index returns its rows closest first. */
  lemma RecommendationsKeepOrder(ns: seq<Neighbour>, m: IndexMap)
    requires DistancesNonDecreasing(ns)
    ensures SimilaritiesNonIncreasing(Recommendations(ns, m))
  {
    if ns != [] {
      EmitKeepsOrder(ns[1..], m);
    }
  }

  /** The neighbours whose row is not `row`, in order. */
  function WithoutRow(ns: seq<Neighbour>, row: int): (r: seq<Neighbour>)
    ensures |r| <= |ns|
    ensures forall i :: 0 <= i < |r| ==> r[i].0 != row
  {
    if ns == [] then []
    else if ns[0].0 == row then WithoutRow(ns[1..], row)
    else [ns[0]] + WithoutRow(ns[1..], row)
  }

  /** A run that never names `row` loses nothing to `WithoutRow`. */
  lemma {:induction false} WithoutAbsentRow(ns: seq<Neighbour>, row: int)
    requires forall i :: 0 <= i < |ns| ==> ns[i].0 != row
    ensures WithoutRow(ns, row) == ns
  {
    if ns != [] {
      WithoutAbsentRow(ns[1..], row);
    }
  }

  /**
   * `WithoutRow` works neighbour by neighbour: a run split in two is filtered
   * piecewise (this lemma), and a single neighbour is kept exactly when its row
   * differs (`WithoutRowSingle`). Together they say that every other neighbour
   * is kept, in order.
   */
  lemma {:induction false} WithoutRowAppend(a: seq<Neighbour>, b: seq<Neighbour>, row: int)
    ensures WithoutRow(a + b, row) == WithoutRow(a, row) + WithoutRow(b, row)
  {
    if a == [] {
      assert a + b == b;
    } else {
      var ab := a + b;
      assert ab[0] == a[0] && ab[1..] == a[1..] + b;
      WithoutRowAppend(a[1..], b, row);
      var head := if a[0].0 == row then [] else [a[0]];
      calc {
        WithoutRow(ab, row);
        head + WithoutRow(a[1..] + b, row);
        head + (WithoutRow(a[1..], row) + WithoutRow(b, row));
        (head + WithoutRow(a[1..], row)) + WithoutRow(b, row);
      }
    }
  }

  lemma WithoutRowSingle(n: Neighbour, row: int)
    ensures WithoutRow([n], row) == if n.0 == row then [] else [n]
  {
    assert [n][1..] == [];
  }

  function Take(ns: seq<Neighbour>, k: nat): (r: seq<Neighbour>)
    ensures |r| == if |ns| <= k then |ns| else k
    ensures r == ns[..|r|]
  {
    if |ns| <= k then ns else ns[..k]
  }

  /**
   * Self-exclusion as the recommender means it: drop the query row wherever
   * it stands among the neighbours, then keep at most `topN` of the rest.
   */
  function RecommendationsExcludingSelf(ns: seq<Neighbour>, m: IndexMap, selfRow: int, topN: nat): (r: seq<Rec>)
    ensures |r| <= topN
  {
    Emit(Take(WithoutRow(ns, selfRow), topN), m)
  }

  /** The corrected result never recommends the selected movie back to itself. */
  lemma NeverRecommendsItself(ns: seq<Neighbour>, m: IndexMap, movieId: int, topN: nat)
    requires KeysDistinct(m)
    requires IndexOf(m, movieId).Some?
    ensures var r := RecommendationsExcludingSelf(ns, m, IndexOf(m, movieId).value, topN);
            forall j :: 0 <= j < |r| ==> r[j].movieId != movieId
  {
    var selfRow := IndexOf(m, movieId).value;
    var kept := WithoutRow(ns, selfRow);
    var xs := Take(kept, topN);
    assert forall i :: 0 <= i < |xs| ==> xs[i] == kept[i];
    forall j | 0 <= j < |Emit(xs, m)| ensures Emit(xs, m)[j].movieId != movieId {
      EmitProvenance(xs, m, j);
      var i :| 0 <= i < |xs| && MovieIdOf(m, xs[i].0) == Some(Emit(xs, m)[j].movieId);
      ReverseRoundTrip(m, xs[i].0);
    }
  }

  /**
   * Wherever the query row stands, the corrected result is the recommendations
   * of all the other neighbours, in order, capped at `topN`.
   */
  lemma ExcludingSelfAtPosition(ns: seq<Neighbour>, m: IndexMap, selfRow: int, topN: nat, p: nat)
    requires p < |ns| && ns[p].0 == selfRow
    requires forall i :: 0 <= i < |ns| && i != p ==> ns[i].0 != selfRow
    ensures RecommendationsExcludingSelf(ns, m, selfRow, topN) == Emit(Take(ns[..p] + ns[p + 1..], topN), m)
  {
    var before, after := ns[..p], ns[p + 1..];
    assert ns == (before + [ns[p]]) + after;
    WithoutRowAppend(before + [ns[p]], after, selfRow);
    WithoutRowAppend(before, [ns[p]], selfRow);
    WithoutRowSingle(ns[p], selfRow);
    WithoutAbsentRow(before, selfRow);
    WithoutAbsentRow(after, selfRow);
    calc {
      WithoutRow(ns, selfRow);
      WithoutRow(before + [ns[p]], selfRow) + WithoutRow(after, selfRow);
      (WithoutRow(before, selfRow) + WithoutRow([ns[p]], selfRow)) + WithoutRow(after, selfRow);
      (before + []) + after;
      { assert before + [] == before; }
      before + after;
    }
  }

  /** In a tie ahead of the query row, the corrected result keeps every other neighbour, in order. */
  lemma ExcludingSelfInTie()
    ensures var m := [(10, 0), (20, 1), (30, 2)];
            var ns := [(1, 0.0), (0, 0.0), (2, 0.5)];
            RecommendationsExcludingSelf(ns, m, 0, 2) == [Rec(20, 100.0), Rec(30, 50.0)]
  {
    var m := [(10, 0), (20, 1), (30, 2)];
    var ns := [(1, 0.0), (0, 0.0), (2, 0.5)];
    ExcludingSelfAtPosition(ns, m, 0, 2, 1);
    var rest := [(1, 0.0), (2, 0.5)];
    assert ns[..1] + ns[2..] == rest;
    assert MovieIdOf(m, 1) == Some(20) && MovieIdOf(m, 2) == Some(30);
    assert Emit(rest, m) == EmitOne(rest[0], m) + Emit(rest[1..], m);
    assert Emit(rest[1..], m) == EmitOne(rest[1], m) + Emit([], m);
  }

  /** When the query row comes first and only there, dropping by position and by identity agree. */
  lemma ExcludingSelfAgreesWhenSelfFirst(ns: seq<Neighbour>, m: IndexMap, selfRow: int, topN: nat)
    requires ns != [] && ns[0].0 == selfRow
    requires forall i :: 1 <= i < |ns| ==> ns[i].0 != selfRow
    requires |ns| <= topN + 1
    ensures RecommendationsExcludingSelf(ns, m, selfRow, topN) == Recommendations(ns, m)
  {
    assert forall i :: 0 <= i < |ns[1..]| ==> ns[1..][i] == ns[i + 1];
    WithoutAbsentRow(ns[1..], selfRow);
  }

  /**
   * As written, a tie at distance 0 that the index returns ahead of the query
   * row makes the selected movie its own recommendation and drops the other.
   */
  lemma PositionalExclusionKeepsSelf()
    ensures var m := [(10, 0), (20, 1)];
            var ns := [(1, 0.0), (0, 0.0)];
            && IndexOf(m, 10) == Some(0)
            && Recommendations(ns, m) == [Rec(10, 100.0)]
            && RecommendationsExcludingSelf(ns, m, 0, 1) == [Rec(20, 100.0)]
  {
  }

  /**
   * `get_recommendations(selected_movie, ..., top_n)`. `kneighbors(row, k)`
   * stands for `model.kneighbors(matrix[row], n_neighbors=k)`, flattened into
   * (row, distance) pairs.
   */
  method GetRecommendations(selected: string, movies: seq<Movie>, movieToIdx: IndexMap, topN: int,
                            kneighbors: (int, int) -> seq<Neighbour>)
    returns (recs: seq<Rec>)
    ensures MovieByTitle(movies, selected).None? ==> recs == []
    ensures (MovieByTitle(movies, selected).Some? &&
             IndexOf(movieToIdx, MovieByTitle(movies, selected).value.movieId).None?) ==> recs == []
    ensures (MovieByTitle(movies, selected).Some? &&
             IndexOf(movieToIdx, MovieByTitle(movies, selected).value.movieId).Some?) ==>
              var row := IndexOf(movieToIdx, MovieByTitle(movies, selected).value.movieId).value;
              recs == Recommendations(kneighbors(row, topN + 1), movieToIdx)
  {
    var sel := MovieByTitle(movies, selected);
    if sel.None? {
      return [];
    }
    var movieIdx := IndexOf(movieToIdx, sel.value.movieId);
    if movieIdx.None? {
      return [];
    }
    var ns := kneighbors(movieIdx.value, topN + 1);
    recs := [];
    if ns == [] {
      return;
    }
    for i := 1 to |ns|
      invariant recs == Emit(ns[1..i], movieToIdx)
    {
      var (idx, dist) := ns[i];
      var similarMovieId := ReverseLookupMovieId(idx, movieToIdx);
      EmitAppend(ns[1..i], [ns[i]], movieToIdx);
      assert ns[1..i + 1] == ns[1..i] + [ns[i]];
      if similarMovieId.None? {
        continue;
      }
      recs := recs + [Rec(similarMovieId.value, Similarity(dist))];
    }
    assert ns[1..|ns|] == ns[1..];
  }

}
