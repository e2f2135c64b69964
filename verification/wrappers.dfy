/** Option and Result, for the optional guard matcher and for the
    collaborators that can fail (YAML reading and marshalling). */
module Wrappers {

  datatype Option<+T> = None | Some(value: T)

  datatype Result<+R, +E> = Success(value: R) | Failure(error: E)
}
