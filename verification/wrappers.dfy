/** Optional values, used for inputs that the components may leave unset. */
module Wrappers {

  datatype Option<+T> = None | Some(value: T)
}
