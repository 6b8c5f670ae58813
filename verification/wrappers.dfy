/** Option and Result datatypes shared by the rest of the model. */
module Wrappers {

  /** A value that may be absent: JavaScript's `undefined`/`null` on the Dafny side. */
  datatype Option<+T> = None | Some(value: T)

  /** The outcome of an operation that can throw: `Err` stands for the exception. */
  datatype Result<+R, +E> = Ok(value: R) | Err(error: E)
}
