/** The optional value used for absent request fields and headers. */
module Maybe {

  datatype Option<+T> = None | Some(value: T)
}
