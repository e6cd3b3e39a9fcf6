/** The optional-value datatype shared by the heading matcher and the
    block-structure automaton. */
module Wrappers {

  datatype Option<+T> = None | Some(value: T)
}
