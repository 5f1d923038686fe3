/** Option and Result, used for nullable columns, optional arguments and error returns; and
    the greater of two numbers. */
module Wrappers {
  datatype Option<+T> = None | Some(value: T)

  datatype Result<+T, +E> = Ok(value: T) | Err(error: E)

  function Max(a: int, b: int): int { if a < b then b else a }
}
