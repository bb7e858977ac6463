/** Shared vocabulary: octets and the success/failure wrappers that stand in
    for the exceptions the resolver raises. */
module Common {

  /** One octet of a datagram. */
  type byte = x: int | 0 <= x < 256

  datatype Option<+T> = None | Some(value: T)

  /** Success carries the value; Failure carries what the source would raise. */
  datatype Result<+T, +E> = Success(value: T) | Failure(error: E)

  /** One more copy of k. */
  lemma Times(m: int, k: int)
    ensures (m + 1) * k == m * k + k
  {
  }
}
