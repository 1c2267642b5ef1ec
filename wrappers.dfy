/** The optional result of the counterexample search. */
module Wrappers {

  datatype Option<+T> = None | Some(value: T)

}
