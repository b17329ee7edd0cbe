/** The optional value used for the edit pointer, the selected file and the
    durable storage slot. */
module Wrappers {

  datatype Option<+T> = None | Some(value: T)
}
