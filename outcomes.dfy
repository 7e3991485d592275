/** Small tagged-union types shared by the models: an optional value and a
    success-or-error result, standing in for .NET's "returns normally" versus
    "throws". */
module Outcomes {

  datatype Option<+T> = None | Some(value: T)

  datatype Result<+R, +E> = Success(value: R) | Failure(error: E)
}
