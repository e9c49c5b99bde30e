/** Outcomes of operations that the Python code ends by returning or by raising. */
module Errors {

  /** A value, or the exception that was raised instead (its message). */
  datatype Result<+T> = Ok(value: T) | Err(reason: string)

  /** A value that may be absent (Python's `None`). */
  datatype Option<+T> = None | Some(value: T)

  /** The outcome of an operation that returns nothing: it completed, or it raised. */
  datatype Status = Done | Failed(reason: string)
}
