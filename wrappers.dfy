/** Optional values, for lookups that may miss (`Array.prototype.find`,
    a record lookup that yields `undefined`). */
module Wrappers {

  datatype Option<+T> = None | Some(value: T)
}
