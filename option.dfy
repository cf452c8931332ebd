/** An optional value: an element or attribute that may be absent. */
module Optional {
  datatype Option<+T> = None | Some(value: T)
}
