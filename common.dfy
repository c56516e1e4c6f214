/** Small shared definitions for the browser-state model. */
module Common {

  /** A value that may be absent, as `localStorage.getItem` or `querySelector` answer. */
  datatype Option<T> = None | Some(value: T)
}
