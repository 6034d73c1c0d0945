/** Optional values: `None` stands for JavaScript's `null`, `NaN` or a missing key. */
module Wrappers {

  datatype Option<+T> = None | Some(value: T)
}
