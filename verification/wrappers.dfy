/** Failure-carrying result types shared by every module of the model.
    `None` stands for pandas' NaN ("undefined") and `Failure` for a raised
    Python exception. */
module Wrappers {

  datatype Option<+T> = None | Some(value: T)

  datatype Result<+R, +E> = Success(value: R) | Failure(error: E)
}
