/** A value that may be missing: what the C code writes as a null pointer or an all-ones mark,
    and the Python code as None or an absent key. */
module Options {
  datatype Option<T> = None | Some(value: T)
}
