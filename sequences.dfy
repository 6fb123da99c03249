/** Facts about sequences shared by the store's key order and the
    serialised domain lists. */
module Sequences {

  /** All elements of a sequence are different. */
  predicate Distinct<T(==)>(xs: seq<T>)
  {
    forall i, j :: 0 <= i < j < |xs| ==> xs[i] != xs[j]
  }
}
