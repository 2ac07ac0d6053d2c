/** Small things that several parts of the model share. */
module Basics {
  /** Used where the driver has a pointer that may be null. */
  datatype Option<+T> = None | Some(value: T)

  type byte = x: int | 0 <= x < 256

  ghost predicate Distinct<T>(s: seq<T>) {
    forall i, j :: 0 <= i < j < |s| ==> s[i] != s[j]
  }
}
