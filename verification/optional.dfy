/**
 A result that may be absent: a key path that does not resolve, a file that
 was not parsed, and JavaScript's `null` or `undefined` argument.
 */
module Optional {

  /** Either nothing (`None`) or exactly one value (`Some`). */
  datatype Option<T> = None | Some(value: T)
}
