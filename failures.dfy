/** Failure-carrying results. A Java method of the generator that throws an
    exception returns `Err`/`Fail` here instead. */
module Failures {

  datatype Option<+T> = None | Some(value: T)

  datatype Result<+T, +E> = Ok(value: T) | Err(error: E)

  /** The outcome of a check that either passes or throws. */
  datatype Outcome<+E> = Pass | Fail(error: E)
}
