/** Optional values and results with an error, for JavaScript's `undefined` and thrown errors. */
module Wrappers {

  /** `None` stands for a property that is absent (`undefined`) or `null`. */
  datatype Option<+T> = None | Some(value: T)

  /** The outcome of an evaluation that may throw. */
  datatype Result<+R, +E> = Success(value: R) | Failure(error: E)
}
