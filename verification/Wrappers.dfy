// A value that may be absent: a nil error, an unset time, a field a document does not have.
module Wrappers {
  datatype Option<+T> = None | Some(value: T)
}
