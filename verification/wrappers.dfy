/** Absent values and error returns of the two libraries. */
module Wrappers {

  /** A value that may be missing: a C# `null` reference or `Nullable<T>`
      without a value, or a TypeScript `null`/`undefined`. */
  datatype Option<+T> = None | Some(value: T)

  /** The outcome of an operation that may throw: `Failure` carries the
      message of the exception the source raises. */
  datatype Result<+R, +E> = Success(value: R) | Failure(error: E)
}
