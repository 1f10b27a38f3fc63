/** Optional values and failure-carrying results, standing in for the
    nullable references and caught exceptions of the modelled program. */
module Opt {

  /** A value that may be absent (a C# `null`). */
  datatype Option<+T> = None | Some(value: T)

  /** The outcome of an operation that may throw: `Err` carries the exception message. */
  datatype Result<+T> = Ok(value: T) | Err(message: string)
}
