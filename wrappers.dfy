/** Optional values and error-carrying results shared by the other modules. */
module Wrappers {

  /** A value that may be absent, such as an optional key of a JSON object. */
  datatype Option<+T> = None | Some(value: T)

  /** The outcome of an operation that can raise an error. */
  datatype Result<+T, +E> = Ok(value: T) | Err(error: E)
}
