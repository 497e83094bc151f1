/** Failure-carrying result types shared by every module. */
module Wrappers {

  datatype Option<T> = None | Some(value: T)

  /** The outcome of a PHP function that either returns a value or throws. */
  datatype Result<T, E> = Ok(value: T) | Err(error: E)
}
