/** Option and Result: the absent reference (`null`) and the thrown error of the tree variants. */
module Wrappers {

  /** `None` stands for a `null` reference or an argument that was not supplied. */
  datatype Option<+T> = None | Some(value: T)

  /** `Failure` stands for an `Error` the operation throws before touching the tree. */
  datatype Result<+R, +E> = Success(value: R) | Failure(error: E)
}
