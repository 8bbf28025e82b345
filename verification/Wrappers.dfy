module Wrappers {
  /** A pointer or an out-parameter that may be missing. */
  datatype Option<+T> = None | Some(value: T)
}
