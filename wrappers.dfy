/** The optional value used wherever the source returns `undefined` or fails an assertion. */
module Wrappers {
  datatype Option<+T> = None | Some(value: T)
}
