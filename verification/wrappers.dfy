/** Failure-compatible wrappers used across the model. */
module Wrappers {

  /** An optional value: `None` is an absent attribute, `Some("")` a present but empty one. */
  datatype Option<+T> = None | Some(value: T)

  /** The outcome of an operation that may fail with an error message. */
  datatype Result<+R, +E> = Success(value: R) | Failure(error: E) {
    function ToOption(): Option<R> {
      match this
      case Success(v) => Some(v)
      case Failure(_) => None
    }
  }
}
