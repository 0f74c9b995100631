/** The failures the collection signals, as values rather than exceptions. */
module Results {

  /** The Python exceptions the collection raises. */
  datatype Error =
    | IndexError   // integer index outside [-len, len)
    | ValueError   // index(x) for an absent x
    | TypeError    // `+` with an operand that is not a SortedFrozenSet

  datatype Option<T> = None | Some(value: T)

  datatype Result<T> = Ok(value: T) | Err(error: Error)
}
