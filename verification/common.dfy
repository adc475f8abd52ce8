/** Option and result types shared by the tour modules. */
module Common {

  /** A value that may be absent: an unset attribute, a missing property, NaN. */
  datatype Option<+T> = None | Some(value: T) {

    /** The carried value, or the given default when there is none. */
    function GetOr(default: T): T {
      match this
      case Some(v) => v
      case None => default
    }
  }

  /** The outcome of an operation that can fail with an error value. */
  datatype Result<+T, +E> = Success(value: T) | Failure(error: E)
}
