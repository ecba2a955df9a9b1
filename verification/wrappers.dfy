/** Optional values and results with an error, standing for JavaScript's
    absent (`null`/`undefined`) fields and thrown exceptions. */
module Wrappers {

  /** A value that may be absent. */
  datatype Option<+T> = None | Some(value: T)

  /** The value of an expression that either completes or throws `error`. */
  datatype Result<+R, +E> = Success(value: R) | Failure(error: E)
}
