/** Optional values: a nullable column, an absent query parameter, a failed lookup. */
module Wrappers {

  datatype Option<+T> = None | Some(value: T)
}
