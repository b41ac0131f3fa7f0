/** Optional values for every operation that can fail. */
module Wrappers {

  /** `None` models the source's `return False` paths and Python exceptions;
      `Some(v)` carries the successful value. */
  datatype Option<+T> = None | Some(value: T)
}
