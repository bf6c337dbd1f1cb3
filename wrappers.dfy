/** Option and Result, used for "not found" answers of the store and the errors of the resolver. */
module Wrappers {

  datatype Option<+T> = None | Some(value: T)

  datatype Result<+T, +E> = Ok(value: T) | Err(error: E)
}
