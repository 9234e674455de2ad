/** The Some/None datatype used for lookups that can miss. */
module Options {

  datatype Option<+T> = None | Some(value: T)

}
