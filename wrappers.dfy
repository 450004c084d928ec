/** The absent-or-present value used where the Java code returns `null` or an infinite sentinel. */
module Wrappers {

  datatype Option<+T> = None | Some(value: T)

}
