/** Optional values, used for readers that may reject their input. */
module Wrappers {
  datatype Option<+T> = None | Some(value: T)
}
