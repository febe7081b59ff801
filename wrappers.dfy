/** Option and Result values shared by the other modules: `None` stands for
    Python's `None`, `Err` for an exception the source raises. */
module Wrappers {
  datatype Option<+T> = None | Some(value: T)

  datatype Result<+T, +E> = Ok(value: T) | Err(error: E)
}
