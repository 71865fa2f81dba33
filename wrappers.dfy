/** Optional values, used for content that may be missing and for input that may end early. */
module Wrappers {
  datatype Option<+T> = None | Some(value: T)
}
