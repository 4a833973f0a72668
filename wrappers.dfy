/** Optional values and results with an error, shared by the deserializer and the element tree. */
module Wrappers {

  /** A value that may be absent: a C# reference that may be null. */
  datatype Option<+T> = None | Some(value: T)

  /** The outcome of an operation that may throw: its value, or the exception it raised. */
  datatype Result<+T, +E> = Ok(value: T) | Err(error: E)
}
