/** Option and Result, the two failure-carrying shapes the model uses for Go's
    `(value, error)` returns and for values that may be absent. */
module Wrappers {

  datatype Option<+T> = None | Some(value: T)

  datatype Result<+T, +E> = Success(value: T) | Failure(error: E)
}
