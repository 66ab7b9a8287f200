/** The optional value used for the exchange slot and for channel receives. */
module Wrappers {

  datatype Option<+T> = None | Some(value: T)
}
