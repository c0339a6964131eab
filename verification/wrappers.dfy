/** The absent-or-present value used where the Python code reads a `None`
    placeholder or raises on a missing element. */
module Wrappers {

  datatype Option<+T> = None | Some(value: T)
}
