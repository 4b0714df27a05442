/** Failure-compatible result types shared by the game modules. */
module Wrappers {

  /** A value that may be absent (the source's `undefined`). */
  datatype Option<+T> = None | Some(value: T)

  /** Either a value or the reason the computation could not produce one. */
  datatype Result<+T, +E> = Ok(value: T) | Failure(error: E)
}
