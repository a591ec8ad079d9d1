/** The optional value used for Python's "a value or nothing" results. */
module Optional {

  datatype Option<+T> = None | Some(value: T)

}
