/** Two notions about sequences that several modules share. */
module Sequences {

  predicate Distinct<T(==)>(s: seq<T>) {
    forall i, j :: 0 <= i < j < |s| ==> s[i] != s[j]
  }

  /** At most the first `capacity` elements. */
  function Bounded<T>(s: seq<T>, capacity: nat): seq<T> {
    if |s| > capacity then s[..capacity] else s
  }
}
