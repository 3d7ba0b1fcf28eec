/**
 * The "first row that matches" scan shared by every lookup in the recommender:
 * a pandas boolean filter followed by `.iloc[0]`, `dict.get`, and the linear
 * reverse search over a dictionary's items all return the leftmost match.
 */
module Lookup {
  import opened Wrappers

  /** Position of the first element of `s` at or after `from` that satisfies `p`. */
  function FirstFrom<T>(s: seq<T>, p: T -> bool, from: nat): (r: Option<nat>)
    requires from <= |s|
    ensures r.Some? ==> from <= r.value < |s| && p(s[r.value])
    ensures r.Some? ==> forall k :: from <= k < r.value ==> !p(s[k])
    ensures r.None? ==> forall k :: from <= k < |s| ==> !p(s[k])
    decreases |s| - from
  {
    if from == |s| then None
    else if p(s[from]) then Some(from)
    else FirstFrom(s, p, from + 1)
  }

  /** Position of the first element of `s` that satisfies `p`, if any. */
  function First<T>(s: seq<T>, p: T -> bool): (r: Option<nat>)
    ensures r.Some? ==> r.value < |s| && p(s[r.value])
    ensures r.Some? ==> forall k :: 0 <= k < r.value ==> !p(s[k])
    ensures r.None? <==> forall k :: 0 <= k < |s| ==> !p(s[k])
  {
    FirstFrom(s, p, 0)
  }

}
