/** Optional values: an absent or `undefined` argument is `None`. */
module Wrappers {
  datatype Option<+T> = None | Some(value: T)
}
