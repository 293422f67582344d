/** Failure-carrying results used where the Rust code returns an `Option`
    or aborts the process. */
module Wrappers {

  datatype Option<+T> = None | Some(value: T)

  datatype Result<+T, +E> = Ok(value: T) | Err(error: E)
}
