/** Failure-carrying datatypes shared by every module of the model.
    A `None` produced by a member named `...AsWritten` stands for a Rust panic. */
module Wrappers {

  datatype Option<+T> = None | Some(value: T)

  datatype Result<+T, +E> = Ok(value: T) | Err(error: E)
}
