/** Failure-carrying values shared by the pipeline's modules. */
module Wrappers {

  /** A value that may be absent (a missing file, a comparison that raised). */
  datatype Option<+T> = None | Some(value: T)

  /** The outcome of a stage: a value, or the error it raised. */
  datatype Result<+T, +E> = Ok(value: T) | Err(error: E)
}
