/** Failure-carrying values shared by the other modules. */
module Wrappers {

  /** An optional value: a decoded event, a parsed block, an absent environment variable. */
  datatype Option<+T> = None | Some(value: T)

  /** Either a value or the error that replaced it, as Go's `(value, error)` pair
      and Python's raised exceptions are modelled here. */
  datatype Result<+T, +E> = Success(value: T) | Failure(error: E)
}
