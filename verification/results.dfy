/** Failure-carrying values shared by both engines. */
module Results {

  datatype Option<+T> = None | Some(value: T)

  datatype Result<+T, +E> = Ok(value: T) | Err(error: E)

  /** The ways the scripts crash: indexing `prefix[0]` of the empty prefix
      (an order-1 bank), `random.choice` of an empty list, and indexing
      `words[0]` of an empty sentence when rendering it. */
  datatype Fault = EmptyPrefixIndexed | EmptyChoice | EmptySentenceIndexed
}
