/** Value-or-nothing and value-or-error datatypes used by the user log store. */
module Wrappers {

  /** A possibly missing value; `None` plays the part of JavaScript's `null` / `NaN`. */
  datatype Option<+T> = None | Some(value: T)

  /** The outcome of a callback-style operation: `done(null, value)` or `done(error)`. */
  datatype Result<+T, +E> = Success(value: T) | Failure(error: E)
}
