/** The optional value shared by every module of the model. */
module Wrappers {
  /** An optional value. For JavaScript values, `None` stands for `null`,
      `undefined` or another falsy value that the source replaces by a default. */
  datatype Option<+T> = None | Some(value: T)
}
