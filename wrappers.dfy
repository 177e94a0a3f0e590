/** Option and Result values, standing in for Python's `None` and for the exceptions
    that `read_urls` lets escape. */
module Wrappers {

  datatype Option<+T> = None | Some(value: T)

  datatype Result<+T, +E> = Success(value: T) | Failure(error: E)
}
