/** Optional values, used where the source returns a bool and an out-parameter. */
module Wrappers {
  datatype Option<+T> = None | Some(value: T)
}
