/** A value that may be missing: Python's `None`, a raised exception, a rejected run. */
module Options {

  datatype Option<+T> = None | Some(value: T)
}
