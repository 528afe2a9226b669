/** The usual Some/None wrapper, used for parse results and for lookups that can fail. */
module Optional {
  datatype Option<+T> = None | Some(value: T)
}
