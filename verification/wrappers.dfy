/** Failure-carrying values shared by every module of the model. */
module Wrappers {

  /** Python's "value or None". */
  datatype Option<+T> = None | Some(value: T) {

    /** The wrapped value, or `default` when there is none. */
    function GetOr(default: T): T {
      match this
      case Some(v) => v
      case None => default
    }
  }

  /** A value, or the text of the exception the source would raise instead. */
  datatype Result<+R, +E> = Success(value: R) | Failure(error: E)
}
