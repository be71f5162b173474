/** The optional value the hooks express with `null` / `undefined`. */
module Optional {

  datatype Option<+T> = None | Some(value: T)
}
