/** The nil-or-pointer results of the library, as a value. */
module Optional {

  /** `None` stands for a nil `*T`, `Some(v)` for a pointer to the payload `v`. */
  datatype Option<T> = None | Some(value: T)
}
