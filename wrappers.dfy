/** Failure-carrying results used by the placement model: the source throws on
    malformed input, the model returns these instead. */
module Wrappers {

  datatype Option<+T> = None | Some(value: T)

  datatype Result<+T, +E> = Ok(value: T) | Err(error: E)

  /** Success or failure of an operation that only changes state. */
  datatype Outcome<+E> = Pass | Fail(error: E)
}
