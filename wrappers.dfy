/** Optional values: the model's stand-in for TypeScript's optional (`?:`) properties. */
module Wrappers {

  datatype Option<+T> = None | Some(value: T)
}
