/** The optional-value datatype used for "absent" results (a failed match, a null title). */
module Wrappers {
  datatype Option<+T> = None | Some(value: T)
}
