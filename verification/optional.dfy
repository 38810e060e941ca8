/** A value that may be absent: C#'s `null` for a reference or a string. */
module Optional {
  datatype Option<+T> = None | Some(value: T)
}
