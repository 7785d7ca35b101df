/** The values the app draws from `UUID()` and `Date()`. Fresh identifiers and the current time
    are passed in by the caller of each operation that needs them. */
module Identity {
  /** A `UUID`: only equality between identifiers matters. */
  type Uuid = nat

  /** A `Date`, as a point on a time line. */
  type Date = int
}
