/** An optional value: a JavaScript property that may be `undefined`. */
module Optional {
  datatype Option<T> = None | Some(value: T)
}
