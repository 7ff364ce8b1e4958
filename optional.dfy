/** An optional value: a date that did not parse, a rental that was not found. */
module Optional {

  datatype Option<+T> = None | Some(value: T)
}
