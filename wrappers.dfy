/** The usual Some/None wrapper, used where the kernel has a pointer that may be NULL. */
module Wrappers {

  datatype Option<+T> = None | Some(value: T)
}
