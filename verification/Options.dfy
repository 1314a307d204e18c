/** The usual optional value, standing for the program's nullable fields and missing query results. */
module Options {
  datatype Option<+T> = None | Some(value: T)
}
