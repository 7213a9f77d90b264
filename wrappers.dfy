/** Optional values, used where the model has "no result". */
module Wrappers {

  datatype Option<+T> = None | Some(value: T)
}
