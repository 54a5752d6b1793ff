/** Definitions shared by all modules. */
module Basics {
  datatype Option<T> = None | Some(value: T)

  type byte = b: int | 0 <= b < 256

  function Min(a: nat, b: nat): nat { if a < b then a else b }
}
