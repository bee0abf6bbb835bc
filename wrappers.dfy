/** Optional values: a ray that hit nothing, a dictionary key that is absent. */
module Wrappers {
  datatype Option<+T> = None | Some(value: T)
}
