/** Small failure-carrying datatypes shared by the other modules. */
module Wrappers {

  /** A value that may be absent; `None` also stands for a C# `null`. */
  datatype Option<+T> = None | Some(value: T)

  /** The outcome of an operation that can throw: a value or the error it raised. */
  datatype Result<+T, +E> = Ok(value: T) | Err(error: E)
}
