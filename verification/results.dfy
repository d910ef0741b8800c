/** Error and result values of the Huffman library (src/lib.rs:5-13). */
module Results {

  /** `Option` as returned by the decoder's iterator. */
  datatype Option<+V> = None | Some(value: V)

  /**
   * The library's two error kinds. `NoSuchKey` carries the symbol that the
   * encoding dictionary lacks (the library formats it into a message);
   * `InvalidWeights` carries the reason text.
   */
  datatype Error<+S> = NoSuchKey(key: S) | InvalidWeights(reason: string)

  datatype Result<+V, +S> = Ok(value: V) | Err(error: Error<S>)

  /** The only `InvalidWeights` reason the builder can produce. */
  const ExpectedRootNode: string := "Expected root node"
}
