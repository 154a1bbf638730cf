/** Option and Result carriers shared by the other modules. */
module Wrappers {

  /** A value that may be absent: `undefined`/`null` in the modelled JavaScript. */
  datatype Option<+T> = None | Some(value: T)

  /** The outcome of an operation that may throw: `Err` carries what was thrown. */
  datatype Result<+T, +E> = Ok(value: T) | Err(error: E)
}
