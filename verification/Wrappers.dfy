/** Helpers that several modules share. */
module Wrappers {

  /** Optional values, standing for Python's `None` and for SQL's null. */
  datatype Option<+T> = None | Some(value: T)

  /** No element occurs twice. */
  ghost predicate NoDuplicates<T>(s: seq<T>) {
    forall i, j :: 0 <= i < j < |s| ==> s[i] != s[j]
  }
}
