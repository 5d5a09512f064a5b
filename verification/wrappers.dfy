/** A minimal optional value, used where the simulation may find nothing. */
module Wrappers {

  datatype Option<+T> = None | Some(value: T)

}
