/** The failure-compatible Option type used for "nothing found" results. */
module Wrappers {

  /** Python's `None` or a value. */
  datatype Option<+T> = None | Some(value: T)
}
