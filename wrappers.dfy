/** Optional values: TypeScript's `T | undefined` and `T | null`. */
module Wrappers {

  datatype Option<T> = None | Some(value: T)

  /** The outcome of a form submission: the payload, or the message of the first failed check. */
  datatype Result<T, E> = Ok(value: T) | Err(error: E)

}
