/** Optional values: an element a query may not find, an attribute that may be absent. */
module Wrappers {
  datatype Option<+T> = None | Some(value: T)
}
