/** An optional value; `None` stands for the library's thrown exceptions and
    its `null` returns. */
module Options {
  datatype Option<T> = None | Some(value: T)
}
