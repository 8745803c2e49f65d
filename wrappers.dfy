/** The usual optional-value datatype, used for matchers that may fail. */
module Wrappers {
  datatype Option<+T> = None | Some(value: T)
}
