/** Optional values and results with an error, used where the recipe has an
    absent dictionary field or raises an exception. */
module Wrappers {

  /** A value that may be missing; `None` stands for an absent dictionary key. */
  datatype Option<+T> = None | Some(value: T) {

    /** The value, or `default` when absent (Python's `dict.get(key, default)`). */
    function GetOr(default: T): T {
      match this
      case Some(v) => v
      case None => default
    }
  }

  /** The outcome of an operation that can raise. */
  datatype Result<+T, +E> = Success(value: T) | Failure(error: E)
}
