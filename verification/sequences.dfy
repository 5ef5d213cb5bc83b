/** Facts about sequences shared by the models of the source's vectors and lists. */
module Sequences {

  /** No element occurs twice. */
  predicate NoDuplicates<X(==)>(s: seq<X>) {
    forall i, j :: 0 <= i < j < |s| ==> s[i] != s[j]
  }
}
