/** The error numbers the modelled functions return, and the result of an
    operation that may fail.  A status of zero is `Ok`. */
module Errors {

  datatype Errno =
    | EACCES | EBADF | EBUSY | EEXIST | EFUBAR | EINVAL | EIO | EISDIR | ELOOP | EMFILE
    | ENAMETOOLONG | ENODATA | ENOENT | ENOLINK | ENOSPC | ENOTDIR | ENOTEMPTY
    | ERANGE | EUSERS

  datatype Result<+T> = Ok(value: T) | Err(error: Errno) {

    predicate IsFailure() {
      Err?
    }

    function PropagateFailure<U>(): Result<U>
      requires Err?
    {
      Err(error)
    }

    function Extract(): T
      requires Ok?
    {
      value
    }
  }

  /** The result of an operation that reports success and nothing else. */
  datatype Status = Success | Failure(error: Errno)
}
