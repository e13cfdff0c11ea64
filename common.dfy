/** Shared value types of the three key stores. */
module Common {

  /** A value or its absence; stands for the source's `T | null`. */
  datatype Option<+T> = None | Some(value: T)

  /** A value or the error that took its place. */
  datatype Result<+T, +E> = Success(value: T) | Failure(error: E)

  type byte = bv8

  /** An opaque DER serialization (of a key or a certificate). */
  type Bytes = seq<byte>

  /**
   * A point in time as milliseconds since the Unix epoch: the precision of
   * the date strings the database compares.
   */
  type Timestamp = int
}
