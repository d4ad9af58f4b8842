/** What several parts of the model say of sequences of nodes and blocks. */
module Sequences {

  predicate Distinct(s: seq<nat>) { forall i, j :: 0 <= i < j < |s| ==> s[i] != s[j] }
}
