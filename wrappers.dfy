/** Result values that stand for the exceptions the driver throws. */
module Wrappers {

  /** Either the operation completed, or it stopped with `error`. */
  datatype Outcome<+E> = Pass | Fail(error: E)

  /** A value that may be absent (a reference the driver has not assigned yet). */
  datatype Option<+T> = None | Some(value: T)
}
