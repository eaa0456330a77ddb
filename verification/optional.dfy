/** The absent-or-present value the C code expresses with a NULL pointer. */
module Optional {

  /** `None` stands for a NULL return, `Some(v)` for a pointer to `v`. */
  datatype Option<+T> = None | Some(value: T)
}
