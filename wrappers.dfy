/** The optional value: `None` is the `NaN` that the age cell's number parse yields
    for a string that is not a number. */
module Wrappers {

  datatype Option<+T> = None | Some(value: T)
}
