/** The absent-or-present value used wherever the Java code returns `null` on failure. */
module Wrappers {
  datatype Option<+T> = None | Some(value: T)
}
