/** Types shared by the modules of the model. */
module Wrappers {

  type Byte = x: int | 0 <= x < 256

  datatype Option<+T> = None | Some(value: T)
}
