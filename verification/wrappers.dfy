/** The conventional Some/None datatype, standing in for a value that may be
    `undefined` or `null` in the modelled code. */
module Wrappers {

  datatype Option<+T> = None | Some(value: T)
}
