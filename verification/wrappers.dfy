/** Option type used for the source's null results and for operations that throw. */
module Wrappers {
  datatype Option<+T> = None | Some(value: T)
}
