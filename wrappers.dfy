/** The optional value used wherever the source stores `null` or returns `undefined`. */
module Wrappers {
  datatype Option<+T> = None | Some(value: T)
}
