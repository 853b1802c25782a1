/** Values that may be missing: a lock's holder, a mutex's owner, a thread's exit value. */
module Options {
  datatype Option<T> = None | Some(v: T)
}
