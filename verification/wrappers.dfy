/** Optional values, standing in for the C convention of returning NULL. */
module Wrappers {

  /** `None` plays the role of a NULL pointer result; `Some(v)` a non-NULL one. */
  datatype Option<+T> = None | Some(value: T)
}
