/** Failure-compatible result types shared by the other modules. */
module Wrappers {

  datatype Option<+T> = None | Some(value: T)

  /** The error a Python call raises, reduced to the kinds the linter meets. */
  datatype Error = ValueError | FileNotFound

  datatype Result<+T> = Ok(value: T) | Err(error: Error)
}
