/** Small notions that several components share. */
module Basics {

  datatype Option<+T> = None | Some(value: T)

  ghost predicate NoDuplicates(l: seq<nat>) { forall i, j :: 0 <= i < j < |l| ==> l[i] != l[j] }
}
