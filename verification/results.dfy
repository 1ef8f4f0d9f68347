/**
 Failure-carrying wrappers for Go's `(value, error)` returns.
 - Option<T>: a value that may be missing (a git invocation that failed, an output too short to parse)
 - Result<T, E>: a value or the error that replaced it
 */
module Results {

  datatype Option<+T> = None | Some(value: T)

  datatype Result<+T, +E> = Ok(value: T) | Err(error: E)
}
