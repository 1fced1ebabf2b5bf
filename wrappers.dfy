/** Option and Result values used in place of JavaScript's `undefined` and thrown errors. */
module Wrappers {

  datatype Option<+T> = None | Some(value: T)

  /** `Failure(message)` stands for a thrown error carrying `message`. */
  datatype Result<+R> = Success(value: R) | Failure(error: string)
}
