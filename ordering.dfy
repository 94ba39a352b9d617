/** Order on lists of reals, shared by the asymptote lists and the distinct magnitudes. */
module Ordering {
  /** Every entry is strictly below every later one. */
  ghost predicate StrictlyIncreasing(s: seq<real>)
  {
    forall i, j :: 0 <= i < j < |s| ==> s[i] < s[j]
  }
}
