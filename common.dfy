/**
 * Shared vocabulary of the newspaper model: optional values (Java's nullable
 * references), and the scalar types the article aggregate is built from.
 */
module Common {

  /** A Java reference that may be null: `None` stands for null. */
  datatype Option<+T> = None | Some(value: T)

  /** Document identifiers are strings assigned by the store. */
  type Id = string

  /** A `LocalDate`, counted in days since 1970-01-01 (negative before it). */
  type Date = int

  /** An `Instant` as supplied by the store's clock; only equality matters here. */
  type Instant = int
}
