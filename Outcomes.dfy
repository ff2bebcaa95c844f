/** Results of the helpers that can throw, and the JavaScript errors they throw. */
module Outcomes {

  /** The error classes a helper can raise. */
  datatype JsError = TypeError | SyntaxError | RangeError

  datatype Option<+T> = None | Some(value: T)

  /** A value, or the exception the call throws instead. */
  datatype Result<+T> = Ok(value: T) | Thrown(error: JsError)
}
