/** The optional value used wherever the source may produce nothing (a missing key, no valid input). */
module Wrappers {
  datatype Option<+T> = None | Some(value: T)
}
