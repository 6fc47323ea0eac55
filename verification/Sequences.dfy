/**
 Lists without repetitions.
 */
module Sequences {
  ghost predicate NoDup(s: seq<nat>) {
    forall i, j :: 0 <= i < j < |s| ==> s[i] != s[j]
  }
}
