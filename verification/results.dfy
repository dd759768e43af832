/** Failure-carrying wrappers used by the date-keyed data format model:
    `Option` for lookups that may find nothing (Python's `None`), and
    `Result` for the parser, whose only failure is an unreadable date token. */
module Results {

  datatype Option<+T> = None | Some(value: T)

  datatype Result<+T, +E> = Success(value: T) | Failure(error: E)
}
