/** An optional value: `None` stands for JavaScript's `undefined` (a missing key or field). */
module Wrappers {
  datatype Option<+T> = None | Some(value: T)
}
