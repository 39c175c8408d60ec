/** Option and Result, used for the fields a request body may leave out and
    for the outcome of a submission. */
module Wrappers {

  datatype Option<+T> = None | Some(value: T)

  datatype Result<+R, +E> = Ok(value: R) | Err(error: E)
}
