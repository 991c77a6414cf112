/** The optional result of a lookup that the Java code can fail at (a `null` unboxed from a map). */
module Options {

  datatype Option<T> = None | Some(value: T)
}
