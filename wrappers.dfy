/** The option and result wrappers shared by the model. */
module Wrappers {

  /** An optional value: a stored row that may be absent, a protobuf field that may be unset. */
  datatype Option<+T> = None | Some(value: T)

  /** The outcome of a fallible operation, mirroring Rust's `Result<T, E>`. */
  datatype Result<+T, +E> = Ok(value: T) | Err(error: E)
}
