/** Optional values: PHP's NULL is `None`. */
module Wrappers {
  datatype Option<+T> = None | Some(value: T)
}
