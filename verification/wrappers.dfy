/** Failure-carrying datatypes used by the committed-entry manager:
    - Option<T> for lookups that may find nothing (the source's `-1` term);
    - Result<R, E> for reads that may fail with an error;
    - Outcome<E> for mutations that either pass or fail with an error. */
module Wrappers {

  datatype Option<+T> = None | Some(value: T)

  datatype Result<+R, +E> = Success(value: R) | Failure(error: E)

  datatype Outcome<+E> = Pass | Fail(error: E)
}
