/** A value that may be missing: a NULL pointer, a position that is the list head, a failed search. */
module Options {
  datatype Option<T> = None | Some(value: T)
}
