/** Option, used for results that may not exist. */
module Wrappers {
  datatype Option<+T> = None | Some(value: T)
}
