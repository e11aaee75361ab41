/** Small failure-carrying datatypes shared by the models. */
module Wrappers {

  /** A value that may be absent, the model of a C pointer that may be NULL. */
  datatype Option<+T> = None | Some(value: T)

  /** The outcome of an operation that returns either a value or an error
      code. */
  datatype Result<+T, +E> = Ok(value: T) | Err(error: E)
}
