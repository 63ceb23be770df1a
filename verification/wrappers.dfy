/** Optional values and JavaScript-style outcomes (a value, or a thrown error's message). */
module Wrappers {

  /** A field that may be absent (`undefined`) or a value that may not exist. */
  datatype Option<+T> = None | Some(value: T) {

    /** The value, or `default` when absent: JavaScript's `x || default` on arrays. */
    function GetOr(default: T): T {
      match this
      case Some(v) => v
      case None => default
    }
  }

  /** The outcome of a call that may throw: its value, or the message of the error it threw. */
  datatype Result<+R> = Success(value: R) | Failure(error: string)
}
