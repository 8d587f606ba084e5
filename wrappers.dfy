/** Failure-carrying result types shared by the model. */
module Wrappers {

  datatype Option<T> = None | Some(value: T)

  /** The outcome of an operation that returns a value or raises an error. */
  datatype Result<T, E> = Ok(value: T) | Err(error: E)

  /** The outcome of an operation that returns nothing or raises an error. */
  datatype Outcome<E> = Pass | Fail(error: E)
}
