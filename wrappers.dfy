/** Option and Result types used where the C++ code returns an "absent" value or throws. */
module Wrappers {

  datatype Option<+T> = None | Some(value: T)

  /** `Err` carries the message of the exception the C++ code would throw. */
  datatype Result<+T> = Ok(value: T) | Err(msg: string)

  /** The message of CHECK_THROW(cond), without its file and line. */
  function CheckFailed(cond: string): string { "Check `" + cond + "' failed" }
}
