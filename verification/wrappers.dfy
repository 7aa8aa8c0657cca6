/** Optional values, used for the values the listener may or may not hand over. */
module Wrappers {

  datatype Option<+T> = None | Some(value: T)
}
