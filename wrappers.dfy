/** Kotlin's nullable values and the service's error outcome. */
module Wrappers {

  /** A nullable value: `None` stands for Kotlin's `null`. */
  datatype Option<+T> = None | Some(value: T)

  /** The result of an operation that may fail with a domain error. */
  datatype Result<+T, +E> = Ok(value: T) | Err(error: E)
}
