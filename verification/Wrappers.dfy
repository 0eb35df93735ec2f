// Optional values (database NULLs and absent rows) and the outcome of an
// operation that may be refused.
module Wrappers {
  datatype Option<+T> = None | Some(value: T)

  datatype Result<+T, +E> = Success(value: T) | Failure(error: E)
}
