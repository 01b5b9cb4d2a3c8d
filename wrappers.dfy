/** Optional values: the model's stand-in for Go's (value, error) pairs. */
module Wrappers {

  /** `None` is the error case, `Some(v)` a successful result `v`. */
  datatype Option<+T> = None | Some(value: T)
}
