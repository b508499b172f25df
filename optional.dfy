/** An optional value: a lookup that may find nothing, a chip that may be absent. */
module Optional {

  datatype Option<+T> = None | Some(value: T)
}
