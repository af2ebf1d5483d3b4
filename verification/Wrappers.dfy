/** What every model shares. */
module Wrappers {
  datatype Option<+T> = None | Some(value: T)

  type Byte = n: nat | n < 256

  function Max(a: nat, b: nat): nat {
    if a < b then b else a
  }
}
