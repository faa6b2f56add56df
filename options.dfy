/** The optional-value wrapper used for the C functions that return NULL. */
module Options {

  /** `None` stands for the NULL pointer (or for "nothing added") that the C code returns. */
  datatype Option<+T> = None | Some(value: T)
}
