/** The nullable values of the source (`int?`, a reference that may be `null`). */
module Wrappers {
  datatype Option<+T> = None | Some(value: T)
}
