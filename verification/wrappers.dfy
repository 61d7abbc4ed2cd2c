/** Optional values and results with an error, used in place of `null` and exceptions. */
module Wrappers {

  /** A value that may be absent; `None` stands for a C# `null`. */
  datatype Option<+T> = None | Some(value: T) {

    /** The value, or `default` when absent (the `??` operator). */
    function GetOr(default: T): T {
      match this
      case Some(v) => v
      case None => default
    }
  }

  /** Either a value or the error an operation would have thrown. */
  datatype Result<+T, +E> = Success(value: T) | Failure(error: E)
}
