/** Optional values: a SQL NULL, a missing row, an absent file. */
module Wrappers {

  datatype Option<+T> = None | Some(value: T)
}
