/** Optional values and outcomes, shared by the other modules. */
module Wrappers {

  /** A value that may be missing: Python's `None` for an absent field. */
  datatype Option<+T> = None | Some(value: T)

  /** The outcome of an operation that can raise: `Failure` stands for the exception. */
  datatype Result<+T, +E> = Success(value: T) | Failure(error: E)
}
