/** Optional values, for the nullable fields of the catalog's records. */
module Wrappers {

  datatype Option<+T> = None | Some(value: T)
}
