/** Optional values, used for conversions that can fail. */
module Wrappers {
  datatype Option<+T> = None | Some(value: T)
}
