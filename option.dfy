/** An optional value: Java's nullable references. */
module Optional {
  datatype Option<T> = None | Some(value: T)
}
