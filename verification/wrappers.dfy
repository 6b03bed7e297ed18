/** Failure-carrying result types shared by the other modules. */
module Wrappers {

  /** A value that may be absent. */
  datatype Option<T> = None | Some(value: T)

  /** A value or the error that prevented computing it. */
  datatype Result<T, E> = Ok(value: T) | Err(error: E)
}
