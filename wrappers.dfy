/** Failure-compatible wrappers used throughout the model: an optional value
    (a C# reference that may be null) and a result that is either a value or
    the exception the source throws. */
module Wrappers {

  datatype Option<+T> = None | Some(value: T)

  datatype Result<+T, +E> = Ok(value: T) | Err(error: E)
}
