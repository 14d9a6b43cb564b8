/** Optional values shared by the other modules. */
module Wrappers {

  /** A value that may be absent: `None` stands for JavaScript's `null`,
      `undefined` or `NaN`, depending on where it is used. */
  datatype Option<+T> = None | Some(value: T)
}
