/** Optional values and success-or-failure results, used where the source
    returns "nothing found" or throws. */
module Options {

  datatype Option<+T> = None | Some(value: T)

  /** `Ok` is a settled promise that returned a value, `Err` one that threw. */
  datatype Result<+T, +E> = Ok(value: T) | Err(error: E)
}
