/** An optional value, for the operations of the source that either produce
    a result or raise. */
module Optional {
  datatype Option<T> = None | Some(value: T)
}
