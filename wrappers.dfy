/** Option and Result: the model's stand-ins for Swift's `T?` and for a
    throwing initializer (a value, or the error it throws). */
module Wrappers {

  datatype Option<+T> = None | Some(value: T)

  datatype Result<+R, +E> = Success(value: R) | Failure(error: E)
}
