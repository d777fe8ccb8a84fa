/** Option and Result: the optional values and the success-or-error outcomes of the app. */
module Wrappers {

  /** Swift's `Optional`: `None` is `nil`. */
  datatype Option<+T> = None | Some(value: T) {

    /** `self ?? default` */
    function GetOr(default: T): T {
      match this
      case Some(v) => v
      case None => default
    }
  }

  /** Swift's `Result<Success, Failure>`. */
  datatype Result<+T, +E> = Success(value: T) | Failure(error: E)
}
