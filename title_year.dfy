/**
 * Release-year extraction from a movie title: the search for the regular
 * expression `\((\d{4})\)`, i.e. an opening parenthesis, exactly four digits
 * and a closing parenthesis, anywhere in the title. The leftmost match wins.
 */
module TitleYear {
  import opened Wrappers

  /** What the title reports when it carries no year. */
  const NotAvailable: string := "N/A"

  predicate IsDigit(c: char) {
    '0' <= c <= '9'
  }

  /** The pattern `\(\d{4}\)` matches `s` starting at position `i`. */
  predicate IsYearAt(s: string, i: nat) {
    i + 6 <= |s| && s[i] == '(' &&
    IsDigit(s[i + 1]) && IsDigit(s[i + 2]) && IsDigit(s[i + 3]) && IsDigit(s[i + 4]) &&
    s[i + 5] == ')'
  }

  /** The leftmost position at or after `from` where the pattern matches. */
  function FindYearFrom(s: string, from: nat): (r: Option<nat>)
    ensures r.Some? ==> from <= r.value && IsYearAt(s, r.value)
    ensures r.Some? ==> forall k :: from <= k < r.value ==> !IsYearAt(s, k)
    ensures r.None? ==> forall k :: from <= k ==> !IsYearAt(s, k)
    decreases |s| - from
  {
    if from + 6 > |s| then None
    else if IsYearAt(s, from) then Some(from)
    else FindYearFrom(s, from + 1)
  }

  /**
   * `get_year_from_title`: the four digits of the leftmost `(dddd)` in the
   * title, or "N/A" when there is none.
   */
  function YearFromTitle(title: string): (r: string)
    ensures (exists i: nat :: IsYearAt(title, i)) ==>
              |r| == 4 && forall c :: c in r ==> IsDigit(c)
    ensures (forall i: nat :: !IsYearAt(title, i)) ==> r == NotAvailable
    ensures forall i: nat :: IsYearAt(title, i) && (forall k :: 0 <= k < i ==> !IsYearAt(title, k)) ==>
                          r == title[i + 1..i + 5]
  {
    match FindYearFrom(title, 0)
    case None => NotAvailable
    case Some(i) => title[i + 1..i + 5]
  }

  /** "N/A" is never a year, so the caller can tell the two outcomes apart. */
  lemma NotAvailableIffNoYear(title: string)
    ensures YearFromTitle(title) == NotAvailable <==> forall i: nat :: !IsYearAt(title, i)
  {
  }

  lemma ToyStory()
    ensures YearFromTitle("Toy Story (1995)") == "1995"
  {
  }

  /** Five digits between parentheses are not a year. */
  lemma FiveDigits()
    ensures YearFromTitle("(12345)") == NotAvailable
  {
  }

  /** Three digits between parentheses are not a year. */
  lemma ThreeDigits()
    ensures YearFromTitle("(199)") == NotAvailable
  {
  }

  /** The leftmost year wins when a title carries two. */
  lemma LeftmostYearWins()
    ensures YearFromTitle("(1999) (2005)") == "1999"
  {
  }

}
