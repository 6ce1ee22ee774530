/** The two ways an operation of the repository can come back without a value:
    a missing value (`None`, pandas' NA) and a raised error (`Failure`). */
module Outcomes {

  datatype Option<+T> = None | Some(value: T)

  datatype Result<+T, +E> = Success(value: T) | Failure(error: E)
}
