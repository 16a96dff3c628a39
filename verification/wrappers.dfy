/** The optional value returned by `GameState.act`: a new state, or a
    rejection (Python's `None`). */
module Wrappers {

  datatype Option<+T> = None | Some(value: T)
}
