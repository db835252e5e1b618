/** A result or nothing: `None` stands for the `False` that `jwt_decode` returns when decoding raises. */
module Wrappers {

  datatype Option<+T> = None | Some(value: T)
}
