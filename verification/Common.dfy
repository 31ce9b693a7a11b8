/** Failure-carrying values shared by every component of the model. */
module Common {

  /** Python's `X | None`. */
  datatype Option<+T> = None | Some(value: T) {
    function GetOr(default: T): T {
      match this
      case Some(v) => v
      case None => default
    }
  }

  /** A return value, or the exception that left the function instead. */
  datatype Result<+T, +E> = Success(value: T) | Failure(error: E)
}
