/** Optional values, used wherever the modelled code has "no value yet" or "not found". */
module Wrappers {

  datatype Option<+T> = None | Some(value: T)
}
