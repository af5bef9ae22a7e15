/** Sequences of strings as lists of distinct keys. */
module Sequences {
  predicate NoDup(s: seq<string>) {
    forall i, j :: 0 <= i < j < |s| ==> s[i] != s[j]
  }
}
