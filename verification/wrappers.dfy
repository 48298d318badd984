/** An optional value: `None` stands for JavaScript's `undefined` or for a thrown exception. */
module Wrappers {
  datatype Option<+T> = None | Some(value: T)
}
