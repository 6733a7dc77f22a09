/** Failure-carrying values shared by the modules of this model. */
module Wrappers {

  /** An optional value: Python's `Optional[T]` / `dict.get` returning None. */
  datatype Option<+T> = None | Some(value: T)

  /** A value or the exception the source would raise instead. */
  datatype Result<+R, +E> = Success(value: R) | Failure(error: E)
}
