/** Failure-compatible return types: `Option` for the number parsers that may
    reject their input, `Result` for the calculation's (value, error) pair. */
module Wrappers {

  datatype Option<+T> = None | Some(value: T)

  datatype Result<+R, +E> = Success(value: R) | Failure(error: E)
}
