/** Small value wrappers shared by the VDEX model. */
module Wrappers {

  /** A value that may be absent. */
  datatype Option<+T> = None | Some(value: T)

}
