/** Optional values, used wherever the model has a "nothing here" answer. */
module Wrappers {

  datatype Option<+T> = None | Some(value: T)
}
