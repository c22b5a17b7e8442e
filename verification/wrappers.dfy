/** The two wrapper datatypes the model uses: an optional value (an
    environment lookup that may be absent) and a success-or-error result (a
    value, or the message the build script throws). */
module Wrappers {

  datatype Option<+T> = None | Some(value: T)

  datatype Result<+R, +E> = Success(value: R) | Failure(error: E)
}
