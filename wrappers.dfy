/** Undefined values (pandas NaN) and error results used across the backtest model. */
module Wrappers {

  /** A value that may be undefined; `None` plays the part of NaN. */
  datatype Option<+T> = None | Some(value: T)

  /** The outcome of a step that can raise. */
  datatype Result<+R, +E> = Success(value: R) | Failure(error: E)
}
