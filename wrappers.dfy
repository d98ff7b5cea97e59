/** Failure-compatible wrappers: `Option` for the source's nullable results,
    `Result` for operations that the source ends with an exception. */
module Wrappers {

  datatype Option<+T> = None | Some(value: T)

  datatype Result<+T, +E> = Ok(value: T) | Err(error: E)
}
