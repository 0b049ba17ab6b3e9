/** Optional values: a query parameter or a JSON field that may be absent. */
module Wrappers {

  datatype Option<+T> = None | Some(value: T)
}
