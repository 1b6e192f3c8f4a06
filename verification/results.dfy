/** What a queue operation hands back to its caller. */
module Results {

  /** An element reference, or the NULL the C functions return for "nothing". */
  datatype Option<T> = None | Some(value: T)

  /** A call that either returns normally or dereferences a NULL pointer,
      which in C is undefined behaviour and here ends the run. */
  datatype Outcome<R> = Returns(value: R) | NullDeref
}
