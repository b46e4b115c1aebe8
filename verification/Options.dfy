/** A value that may be missing: the null results of the driver. */
module Options {
  datatype Option<+T> = None | Some(value: T)
}
