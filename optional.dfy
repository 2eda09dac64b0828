/** The Go idiom of a possibly-nil pointer or a possibly-nil error, as a value. */
module Optional {

  datatype Option<+T> = None | Some(value: T)
}
