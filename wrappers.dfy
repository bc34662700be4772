/** The optional value used wherever the desktop's JavaScript uses `null` or `undefined`. */
module Wrappers {
  datatype Option<+T> = None | Some(value: T)
}
