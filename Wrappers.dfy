/** Optional results: the model's stand-in for a NULL pointer return. */
module Wrappers {
  datatype Option<+T> = None | Some(value: T)
}
