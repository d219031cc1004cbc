module Wrappers {

  datatype Option<+T> = None | Some(value: T)

  /** The outcome of a call that may throw. */
  datatype Result<+T> = Ok(value: T) | Throws
}
