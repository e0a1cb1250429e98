/** The two failure-carrying datatypes the analyzer's pipeline uses. */
module Wrappers {

  /** A value that may be absent (PHP's unset key or NULL). */
  datatype Option<+T> = None | Some(value: T)

  /** The result of a step that may throw: the value, or the exception's message. */
  datatype Result<+T> = Ok(value: T) | Err(message: string)
}
