/** Failure-carrying datatypes shared by both search cores. The source reports
    failure either by returning None or by raising a Python exception; the
    exception kinds that can escape the core are listed in `Error`. */
module Wrappers {

  datatype Option<+T> = None | Some(value: T)

  /** The Python exceptions the modelled code can raise. */
  datatype Error = IndexError | ValueError | AssertionError

  /** Either the value a Python call returns or the exception it raises. */
  datatype Result<+T> = Ok(value: T) | Err(error: Error)
}
