/** Failure-carrying values shared by the sampler and the timeline renderer. */
module Wrappers {

  /** A value that may be absent: a missing environment variable, a missing file. */
  datatype Option<+T> = None | Some(value: T)

  /** The result of a step that can abort the script with an exception. */
  datatype Result<+T, +E> = Ok(value: T) | Err(error: E)
}
