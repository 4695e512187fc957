/** Option and Result, the failure-carrying wrappers used throughout the model. */
module Wrappers {

  /** A cell that may be missing (pandas NaN / NA). */
  datatype Option<T> = None | Some(value: T) {
    function GetOr(default: T): T {
      match this
      case Some(v) => v
      case None => default
    }

    /** The present value as a one-element sequence, or nothing. */
    function ToSeq(): seq<T> {
      match this
      case Some(v) => [v]
      case None => []
    }
  }

  datatype Result<T, E> = Success(value: T) | Failure(error: E)
}
