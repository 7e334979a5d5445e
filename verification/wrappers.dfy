/** Failure-carrying result types shared by the rest of the model. */
module Wrappers {

  /** An optional value: `None` stands for Go's `err != nil` on a call that
      would otherwise return a value. */
  datatype Option<+T> = None | Some(value: T)

  /** Either an accepted value or the reason it was rejected. */
  datatype Result<+R, +E> = Success(value: R) | Failure(error: E)
}
