/**
 * The errno values the admin queue returns to its callers, and a result
 * type for operations that either produce a value or fail with one.
 */
module Errno {

  /** `0` and the errno constants that occur in the admin queue code. */
  datatype Rc = Ok | EINVAL | EAGAIN | ETIME | EACCES | ENOMEM | EOPNOTSUPP | ENOTRECOVERABLE

  datatype Result<T> = Success(value: T) | Failure(error: Rc)
}
