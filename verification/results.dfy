/** The outcomes of operations that can fail: a missing value, or a Go
    panic with its message. */
module Results {
  datatype Option<T> = None | Some(value: T)

  /** A value, or the panic the Go code raises instead. */
  datatype Result<T> = Ok(value: T) | Panic(msg: string)
}
