/** Option and Result, the two failure-carrying types the Rust code uses
    (`Option<T>` and `Result<T, E>`). */
module Wrappers {

  datatype Option<+T> = None | Some(value: T)

  datatype Result<+T, +E> = Success(value: T) | Failure(error: E)
}
