/** The optional-value datatype used for choices that may be absent. */
module Wrappers {
  datatype Option<+T> = None | Some(value: T)
}
