/** A value that may be absent: a missing CSV cell, NaN, a dictionary miss. */
module Wrappers {
  datatype Option<+T> = None | Some(value: T)
}
