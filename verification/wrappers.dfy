/** The optional-value datatype used for a cell's daisy slot and for a daisy's fate after aging. */
module Wrappers {

  datatype Option<+T> = None | Some(value: T)

}
