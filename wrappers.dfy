/** Failure-compatible result type used where the original code either
    returns `None` or raises an exception that the caller sees as a failure. */
module Wrappers {

  datatype Option<+T> = None | Some(value: T)
}
