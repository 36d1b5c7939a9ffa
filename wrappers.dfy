/** Optional values: `None` stands for JavaScript's `null`, `undefined` or `NaN` where the
    component treats them as "no value". */
module Wrappers {
  datatype Option<+T> = None | Some(value: T)
}
