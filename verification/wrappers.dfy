/** Option and Result, the failure-carrying values used across the model.
    `None` stands for JavaScript's `null`/`undefined`; `Failure` stands for a
    thrown `Error`. */
module Wrappers {

  datatype Option<+T> = None | Some(value: T)

  datatype Result<+R, +E> = Success(value: R) | Failure(error: E)
}
