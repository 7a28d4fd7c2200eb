/** Failure-compatible wrappers shared by the model: an optional value and a
    result that is either a value or an error. */
module Wrappers {

  /** A value that may be absent: a missing cell, a NaT date, a `None` return. */
  datatype Option<+T> = None | Some(value: T) {

    /** The wrapped value, or `default` when there is none (`dict.get(key, default)`). */
    function GetOr(default: T): T {
      match this
      case Some(v) => v
      case None => default
    }
  }

  /** Either a value or the error that stopped the computation. */
  datatype Result<+R, +E> = Success(value: R) | Failure(error: E)
}
