/** Optional values: the model's reading of TypeScript's `T | undefined`. */
module Wrappers {

  datatype Option<+T> = None | Some(value: T)
}
