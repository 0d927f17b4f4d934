/** The optional value used for track ids the tracker has not assigned. */
module Wrappers {

  datatype Option<+T> = None | Some(value: T)
}
