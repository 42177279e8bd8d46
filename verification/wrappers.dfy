/** Failure-carrying results used for the argument validator and the
    remaining-time decoder. */
module Wrappers {

  datatype Option<+T> = None | Some(value: T)

  datatype Result<+T, +E> = Ok(value: T) | Err(error: E)
}
