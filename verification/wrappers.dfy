/** Failure-carrying values used throughout the model: a fatal error of the
    program becomes an `Err` value instead of a process exit. */
module Wrappers {

  datatype Option<+T> = None | Some(value: T)

  datatype Result<+T, +E> = Ok(value: T) | Err(error: E)
}
