/** Optional values: `undefined`/`null`, a missing map entry, an invalid date or NaN. */
module Wrappers {
  datatype Option<+T> = None | Some(value: T)
}
