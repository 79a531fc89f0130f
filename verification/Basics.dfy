/** Shared by the models: a value that may be missing, and an octet. */
module Basics {
  datatype Option<+T> = None | Some(value: T)

  type Byte = n: int | 0 <= n < 256
}
