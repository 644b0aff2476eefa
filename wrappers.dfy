/** The optional value used where the source returns an empty `Mat` or a missing result. */
module Wrappers {

  datatype Option<+T> = None | Some(value: T)
}
