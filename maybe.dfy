/** The optional value used for lookups that can find nothing. */
module Maybe {
  datatype Option<+T> = None | Some(value: T)
}
