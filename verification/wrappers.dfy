/** Two plain sum types: a value that may be absent, and the outcome of an
    operation that either produces a value or raises an error. */
module Wrappers {

  /** An optional value; models a TypeScript `T | undefined`. */
  datatype Option<+T> = None | Some(value: T)

  /** Either a value or the error that was raised instead. */
  datatype Result<+R, +E> = Success(value: R) | Failure(error: E)
}
