/** The nullable slot of the C library (`char *` that may be NULL) as a value. */
module Wrappers {
  datatype Option<+T> = None | Some(value: T)
}
