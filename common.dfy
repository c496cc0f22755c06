/** Values shared by every component of the teacher portal. */
module Common {

  /** A value that may be absent: Python's `None`, JavaScript's `null`. */
  datatype Option<+T> = None | Some(value: T)

  /** A point in time, in microseconds, as Django's timezone-aware datetimes resolve it. */
  type Instant = int
}
