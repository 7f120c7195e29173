/** Failure-carrying result types shared by the whole model: `Option` for the
    library's `Option` returns (checked arithmetic, `try_*` constructors, regex
    captures) and `Result` for `Result<DurationFlex, DurationFlexError>`. */
module Wrappers {

  datatype Option<+T> = None | Some(value: T)

  datatype Result<+T, +E> = Success(value: T) | Failure(error: E)
}
