/** Failure-compatible wrappers shared by the modules of the model. */
module Wrappers {

  datatype Option<+T> = None | Some(value: T)

  /** The only failure the core can raise: `querySelectorAll` rejecting an empty selector list. */
  datatype Error = SyntaxError(selector: string)

  datatype Result<+T> = Ok(value: T) | Err(error: Error)
}
