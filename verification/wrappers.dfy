/** The optional value used where the source returns "nothing" or a failure marker. */
module Wrappers {

  datatype Option<+T> = None | Some(value: T)
}
