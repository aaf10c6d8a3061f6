/** An optional value: a row that may be missing, a session that may be absent. */
module Optional {

  datatype Option<+T> = None | Some(value: T)

}
