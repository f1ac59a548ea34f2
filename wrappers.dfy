/** Option and Result, the two failure-carrying shapes the model needs. */
module Wrappers {

  /** An optional value: `None` stands for TypeScript's `null` or `undefined`. */
  datatype Option<+T> = None | Some(value: T)

  /** The outcome of an operation that can fail (a rejected promise). */
  datatype Result<+T, +E> = Success(value: T) | Failure(error: E)
}
