/** Option type shared by the pipeline modules. */
module Wrappers {
  datatype Option<+T> = None | Some(value: T)
}
