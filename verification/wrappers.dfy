/** The two failure-carrying types of the model: `Option` for JavaScript's
    `null`/`undefined`, and `Result` for an operation that either returns a
    value or throws an `Error` with a message. */
module Wrappers {

  datatype Option<+T> = None | Some(value: T) {

    /** The carried value, or `default` when there is none (JavaScript's `??`). */
    function GetOr(default: T): T {
      match this
      case Some(v) => v
      case None => default
    }
  }

  datatype Result<+T> = Success(value: T) | Failure(message: string)
}
