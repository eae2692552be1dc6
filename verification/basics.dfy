/** Failure-carrying values shared by every module of the model. */
module Basics {

  /** An optional value; `None` plays the role of Go's nil map or absent value. */
  datatype Option<+T> = None | Some(value: T)

  /** A value or the error that prevented computing it (Go's `(T, error)` pair). */
  datatype Result<+T, +E> = Success(value: T) | Failure(error: E)

  /** An error-only result (Go's bare `error` return): `Pass` is a nil error. */
  datatype Outcome<+E> = Pass | Fail(error: E)

  /** No element of `xs` occurs twice. */
  ghost predicate NoDuplicates<T>(xs: seq<T>) {
    forall i, j :: 0 <= i < j < |xs| ==> xs[i] != xs[j]
  }
}
