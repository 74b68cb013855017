/** Optional values and tagged results shared by the ledger modules. */
module Results {

  datatype Option<+T> = None | Some(value: T)

  /** The outcome of an operation: a success payload or one of its named errors. */
  datatype Result<+T, +E> = Ok(value: T) | Err(error: E)
}
