/** The optional value used for the outcomes that the C++ code reports by throwing. */
module Wrappers {
  datatype Option<+T> = None | Some(value: T)
}
