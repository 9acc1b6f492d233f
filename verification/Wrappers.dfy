/** What several modules share: optional values, and sequences without repetition. */
module Wrappers {
  datatype Option<+T> = None | Some(value: T)

  predicate AreDistinct<T(==)>(s: seq<T>) {
    forall i, j | 0 <= i < j < |s| :: s[i] != s[j]
  }
}
