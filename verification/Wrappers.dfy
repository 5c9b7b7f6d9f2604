/** The optional value and the one predicate on sequences that are used throughout. */
module Wrappers {
  datatype Option<+T> = None | Some(value: T)

  ghost predicate Distinct<X>(s: seq<X>) {
    forall i, j :: 0 <= i < j < |s| ==> s[i] != s[j]
  }
}
