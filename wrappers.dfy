/** Optional values: `undefined` results of the queue and the "no edge yet" state of a scan. */
module Wrappers {
  datatype Option<+T> = None | Some(value: T)
}
