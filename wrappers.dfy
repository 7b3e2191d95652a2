/** The optional value used wherever the checkers read something that may be absent
    (an attribute, a directory entry, an established unit). */
module Wrappers {
  datatype Option<+T> = None | Some(value: T)
}
