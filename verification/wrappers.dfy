/** Option and Result: the model's stand-ins for Java's `null` and for an
    exception that aborts a message handler. */
module Wrappers {

  datatype Option<+T> = None | Some(value: T)

  datatype Result<+R, +E> = Success(value: R) | Failure(error: E)
}
