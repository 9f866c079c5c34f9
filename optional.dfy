/** The Some/None datatype standing for Python's "value or None" returns. */
module Optional {

  datatype Option<+T> = None | Some(value: T)
}
