/** Optional values, for the arguments and locals the source leaves `undefined`. */
module Wrappers {
  datatype Option<+T> = None | Some(value: T)
}
