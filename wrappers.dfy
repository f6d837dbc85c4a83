/** Option and Result: the "value or nothing" returns (Python `None`, JavaScript
    `null`) and the "value or raised error" outcomes of the modelled code. */
module Wrappers {

  datatype Option<+T> = None | Some(value: T)

  datatype Result<+R, +E> = Success(value: R) | Failure(error: E)
}
