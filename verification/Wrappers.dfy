/** Shared by every module: outcomes, where a thrown error is a `Failure`, and lists without repeats. */
module Wrappers {
  datatype Option<+T> = None | Some(value: T)

  datatype Result<+T, +E> = Success(value: T) | Failure(error: E)

  ghost predicate NoRepeats<T>(s: seq<T>) { forall i, j :: 0 <= i < j < |s| ==> s[i] != s[j] }
}
