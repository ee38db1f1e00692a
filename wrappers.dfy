/** Failure-carrying results shared by the models: `Option` for lookups that may
    find nothing, `Result` for operations that report an error value. */
module Wrappers {

  datatype Option<+T> = None | Some(value: T)

  datatype Result<+T, +E> = Ok(value: T) | Err(error: E)
}
