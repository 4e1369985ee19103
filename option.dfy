/** An optional value: a page without text, a failed match attempt. */
module Options {

  datatype Option<T> = None | Some(value: T)
}
