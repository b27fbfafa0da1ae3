/** A value that may be absent: an unreadable file, a missing table entry. */
module Wrappers {
  datatype Option<+T> = None | Some(value: T)
}
