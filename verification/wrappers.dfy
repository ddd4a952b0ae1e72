/** Optional values: the mockup's `null` for "no selected hex" and the failure of a parse. */
module Wrappers {

  datatype Option<+T> = None | Some(value: T)
}
