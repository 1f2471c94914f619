/** Optional values and error results shared by the trie modules. */
module Wrappers {

  /** Python's `None` versus a present value. */
  datatype Option<T> = None | Some(value: T)

  /** The only error the trie raises: a `TypeError` for an argument that is not a
      non-empty string where one is required. */
  datatype Error = TypeError

  /** The outcome of an operation that may reject its argument. */
  datatype Result<T> = Ok(value: T) | Err(error: Error)
}
