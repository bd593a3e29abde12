/**
  Failure-carrying result types shared by every module of the model.

  - `Option<T>` stands for Go's "value or nil" and "(value, ok)" returns.
  - `Result<T>` stands for Go's `(value, error)` returns.
  - `Outcome<T>` stands for a call that either returns or panics; a panic is
    modelled as an explicit outcome instead of a precondition wherever the Go
    code panics on an input it could be given.
 */
module Wrappers {

  datatype Option<+T> = None | Some(value: T) {

    /** The wrapped value, or `default` for `None`. */
    function GetOr(default: T): T {
      match this
      case Some(v) => v
      case None => default
    }
  }

  datatype Result<+T> = Ok(value: T) | Err(error: string)

  datatype Outcome<+T> = Returns(value: T) | Panic(message: string)
}
