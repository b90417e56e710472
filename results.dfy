/** Outcomes of decoding: either a value, or the panic that aborts the process. */
module Results {

  /** The ways the decoder can abort the process. */
  datatype Panic =
    /** Rust's "index out of bounds: the len is `len` but the index is `index`". */
    | IndexOutOfBounds(index: nat, len: nat)

  datatype Result<T> = Success(value: T) | Failure(error: Panic)
}
