/** The optional value used where the map's code can fail. */
module Wrappers {

  datatype Option<+T> = None | Some(value: T)
}
