/** An optional value: JavaScript's `null` or an object. */
module Options {
  datatype Option<T> = None | Some(value: T)
}
