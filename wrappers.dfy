/** The absent-or-present value used wherever the program works with `null`,
    `undefined` or a number that may be NaN. */
module Wrappers {

  datatype Option<+T> = None | Some(value: T)
}
