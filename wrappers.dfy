/** The optional value used for the engine's single "last received" slot. */
module Wrappers {

  datatype Option<+T> = None | Some(value: T)

}
