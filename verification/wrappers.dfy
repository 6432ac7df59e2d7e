/** Optional values, used where the source has "no value yet" or an error path. */
module Wrappers {

  datatype Option<+T> = None | Some(value: T)
}
