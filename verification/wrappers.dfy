/** Failure-carrying datatypes shared by every module of the model. */
module Wrappers {

  /** A value that may be absent (Python's `None`). */
  datatype Option<+T> = None | Some(value: T) {
    function GetOr(default: T): T {
      match this
      case Some(v) => v
      case None => default
    }
  }

  /** The outcome of a Python computation that may raise: `Raised` carries the
      name of the exception that escapes to the caller. */
  datatype Checked<+T> = Done(value: T) | Raised(exception: string)

  const IndexError := "IndexError"
  const TypeError := "TypeError"
  const UnicodeDecodeError := "UnicodeDecodeError"
}
