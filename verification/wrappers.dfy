/** Optional values and the two kinds of failure the identifier core raises or passes on. */
module Wrappers {

  /** Stands in for a Java reference that may be null. */
  datatype Option<+T> = None | Some(value: T)

  /** The exceptions that reach a caller of the core.
      `IdentifierGeneration` is the registry's uniform error and may carry the
      exception it wraps; `DatabaseAccess` is the allocator's database failure;
      `OtherRuntime` is any other unchecked exception a producer may throw. */
  datatype Failure =
    | IdentifierGeneration(message: string, cause: Option<Failure>)
    | DatabaseAccess(message: string)
    | OtherRuntime(message: string)

  /** A value, or the failure raised instead of returning one. */
  datatype Result<+T> = Ok(value: T) | Err(failure: Failure)
}
