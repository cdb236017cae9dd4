/** The option type the models use where the C code uses a null pointer. */
module Wrappers {
  datatype Option<+T> = None | Some(value: T)
}
