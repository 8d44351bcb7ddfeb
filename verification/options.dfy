/** Python's `str | None` values: a present value or `None`. */
module Options {
  datatype Option<T> = None | Some(value: T)
}
