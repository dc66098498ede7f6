/** Failure-carrying result types used where the Python code catches an exception
    and falls back, or reports an error to the user. */
module Wrappers {

  datatype Option<+T> = None | Some(value: T)

  datatype Result<+T, +E> = Ok(value: T) | Err(error: E)
}
