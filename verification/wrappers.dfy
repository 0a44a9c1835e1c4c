/** Optional results: the model's stand-in for Python's `None` returns. */
module Wrappers {

  /** `None` is a failed fetch or resolution; `Some(v)` carries the result. */
  datatype Option<+T> = None | Some(value: T)
}
