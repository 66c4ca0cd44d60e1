/** Result shapes shared by the other modules. */
module Wrappers {
  // A value that may be absent: a null pointer, a missing file, a failed call.
  datatype Option<+T> = None | Some(value: T)
}
