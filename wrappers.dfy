/** Optional values: `undefined`/absent on the TypeScript side. */
module Wrappers {

  datatype Option<+T> = None | Some(value: T)
}
