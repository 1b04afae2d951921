/** An optional value: a pointer that may be NULL, an array that may not be
    allocated. */
module Optional {
  datatype Option<T> = None | Some(value: T)
}
