/** The optional value used for lookups that can miss and for operations that can abort. */
module Maybe {

  datatype Option<+T> = None | Some(value: T)
}
