/** Option and Result, used for Python's `None` and for raised exceptions. */
module Wrappers {

  datatype Option<+T> = None | Some(value: T)

  /** `Crash` stands for an exception the source raises (KeyError, IndexError, ...). */
  datatype Result<+T> = Ok(value: T) | Crash(message: string)
}
