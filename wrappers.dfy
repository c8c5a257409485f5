/** Option and Result, used for Python's None-valued dictionary entries and
    for the exceptions the loading scripts let propagate. */
module Wrappers {

  datatype Option<+T> = None | Some(value: T)

  datatype Result<+R, +E> = Success(value: R) | Failure(error: E)
}
