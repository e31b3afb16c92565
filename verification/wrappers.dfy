/** Optional values, used wherever the source returns `None` or a query's `.first()` finds nothing. */
module Wrappers {

  datatype Option<+T> = None | Some(value: T)
}
