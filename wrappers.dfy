/** Option and Result types shared by the other modules. */
module Wrappers {

  /** A value that may be absent: an optional field of a style descriptor,
      or a number that `Number.parseFloat` could not read as a finite value. */
  datatype Option<+T> = None | Some(value: T)

  /** The outcome of an operation that may throw: either its value or the
      message of the `Error` it throws. */
  datatype Result<+T> = Ok(value: T) | Err(message: string)
}
