/** Option and Result, the two wrapper datatypes used across the model. */
module Wrappers {

  /** A value that may be absent: Python's `Optional[...]` / `None`. */
  datatype Option<+T> = None | Some(value: T) {

    /** The wrapped value, or `default` when absent (Python's `x or default` on a nullable string). */
    function GetOr(default: T): T {
      match this
      case Some(v) => v
      case None => default
    }
  }

  /** Either a value or an error: the model of a raised exception. */
  datatype Result<+T, +E> = Success(value: T) | Failure(error: E)
}
