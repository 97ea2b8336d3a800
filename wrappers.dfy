/** Option and Result, the two failure-carrying types the model uses in place of
    Python's `None`-on-miss and raised exceptions. */
module Wrappers {

  datatype Option<+T> = None | Some(value: T)

  datatype Result<+R, +E> = Success(value: R) | Failure(error: E)
}
