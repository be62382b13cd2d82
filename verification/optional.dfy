/** A value that may be absent: a missing match, a failed parse, an empty selection. */
module Optional {

  datatype Option<+T> = None | Some(value: T)
}
