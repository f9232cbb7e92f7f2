/** Failure-carrying datatypes shared by the whole model: `Option` stands for
    the source's `null`/`undefined` results, `Result` for a computation that
    either yields a value or fails with an error message. */
module Wrappers {

  datatype Option<+T> = None | Some(value: T) {

    /** The value, or `default` when there is none. */
    function GetOr(default: T): T {
      match this
      case Some(v) => v
      case None => default
    }
  }

  datatype Result<+R, +E> = Success(value: R) | Failure(error: E)
}
