/** The optional-value datatype used for the edit session and for alerts. */
module Optional {

  /** A value that may be absent (JavaScript's `null` / a missing object key). */
  datatype Option<+T> = None | Some(value: T)
}
