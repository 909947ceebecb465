/** Optional values: a field or a query that produced nothing. */
module Wrappers {

  datatype Option<+T> = None | Some(value: T)
}
