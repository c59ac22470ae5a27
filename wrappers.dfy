/** Failure-carrying values: a missing command output, or an error in place of a result. */
module Wrappers {

  /** An optional value; `None` stands for an external command that failed. */
  datatype Option<T> = None | Some(value: T)

  /** A value or the error that replaced it (Go's `(T, error)` pairs). */
  datatype Result<T, E> = Success(value: T) | Failure(error: E)
}
