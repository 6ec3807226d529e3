/** Option and Result: the nullable results and the error paths of the store. */
module Options {

  /** A nullable value: `None` is SQL NULL / JavaScript `null` or `undefined`. */
  datatype Option<+T> = None | Some(value: T) {
    function GetOr(default: T): T {
      match this
      case Some(v) => v
      case None => default
    }
  }

  /** The outcome of a statement that can fail and roll back. */
  datatype Result<+T, +E> = Success(value: T) | Failure(error: E)
}
