/** Option for values that may be absent (a missing key, `undefined`, SQL `null`),
    and Result for an HTTP handler's answer: a value, or a status code with a message. */
module Wrappers {

  datatype Option<+T> = None | Some(value: T) {
    function GetOr(default: T): T {
      match this
      case Some(v) => v
      case None => default
    }
  }

  datatype Result<+T> = Ok(value: T) | Err(status: int, message: string)
}
