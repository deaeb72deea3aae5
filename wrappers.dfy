/** Option and Result, the two failure-carrying datatypes the model uses
    for values that may be absent and for operations that may raise. */
module Wrappers {

  datatype Option<+T> = None | Some(value: T)

  datatype Result<+R, +E> = Ok(value: R) | Err(error: E)
}
