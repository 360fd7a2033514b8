/** Optional values. `None` stands for a JavaScript `undefined` (or `null`) argument and for SQL NULL. */
module Wrappers {

  datatype Option<+T> = None | Some(value: T)
}
