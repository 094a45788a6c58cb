/** The optional value used for nil pointers, nil interface values and nil slices. */
module Wrappers {

  datatype Option<+T> = None | Some(value: T)
}
