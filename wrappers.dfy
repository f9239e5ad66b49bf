/** The optional value used for a floating-point value that may be NaN:
    `None` is an undefined (not-a-number) cell or result. */
module Wrappers {

  datatype Option<+T> = None | Some(value: T)

}
