/** Java's null references and thrown exceptions, as values. */
module Results {

  /** A possibly-null reference: `None` stands for Java's `null`. */
  datatype Option<T> = None | Some(value: T)

  /** The runtime exceptions the tree map can throw. */
  datatype Exception = NullPointerException | UnsupportedOperationException

  /** The outcome of a call that either returns normally or throws. */
  datatype Result<T> = Ok(value: T) | Err(error: Exception)
}
