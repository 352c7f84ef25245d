/** Failure values shared by the whole model.

    The C++ engine reports failures by throwing `InvalidPositionException`,
    `CircularDependencyException` or `FormulaException`; here each thrown
    exception becomes an `Error` value. */
module Errors {

  /** The three exceptions a sheet or cell operation can raise. */
  datatype Error =
    | InvalidPosition     // InvalidPositionException
    | CircularDependency  // CircularDependencyException
    | FormulaSyntax       // FormulaException, raised by the formula parser

  /** The conventional Some/None datatype, used in place of a null cell. */
  datatype Option<+T> = None | Some(value: T)

  /** Either a value or the exception that was thrown instead. */
  datatype Result<+T> = Ok(value: T) | Err(error: Error)

  /** The state a mutating call leaves behind, and the exception it threw if
      any.  The engine's mutations are not transactional: a call that throws
      may already have changed some state, so both parts are needed. */
  datatype Outcome<+S> = Outcome(state: S, raised: Option<Error>)
}
