/** Optional values: used for parses that can fail and for lookups that can miss. */
module Wrappers {

  datatype Option<+T> = None | Some(value: T)

}
