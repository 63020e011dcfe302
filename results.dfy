/** Outcomes of a statement sent to the database, and the option/result
    shapes the store's operations return. */
module Results {

  /** A value that may be absent: `null`/`undefined` in the store's API. */
  datatype Option<+T> = None | Some(value: T)

  /** The failure kinds a storage call can raise. */
  datatype StorageError = ConnectionFailure | ConstraintViolation | Unknown

  /** What the database client does with the next statement: run it, or fail
      with an error. The client itself is outside the model; each operation
      receives its answer as a parameter. */
  datatype Connection = Available | Unavailable(error: StorageError)

  /** Result of a write that returns nothing (`Promise<void>`). */
  datatype Outcome = Pass | Fail(error: StorageError)

  /** Result of a write that returns the stored row. */
  datatype Result<+T> = Success(value: T) | Failure(error: StorageError)
}
