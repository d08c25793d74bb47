/** Failure-carrying values used in place of the Java exceptions of the repository. */
module Wrappers {

  /** A value that may be missing: `None` stands for a lookup that found nothing
      or a parse that threw. */
  datatype Option<+T> = None | Some(value: T)

  /** Either a computed value or the error the Java code would have thrown. */
  datatype Result<+R, +E> = Success(value: R) | Failure(error: E)
}
