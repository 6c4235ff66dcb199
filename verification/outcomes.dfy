/**
 Errors and outcomes of the uploader's asynchronous operations.

 A promise that resolves with a value is `Ok(value)`, one that rejects is
 `Err(error)`. Errors keep the `code` property the uploader inspects: the
 storage client reports HTTP statuses as numbers, the file system reports
 symbolic codes such as "ENOENT".
 */
module Outcomes {

  datatype ErrorCode = Numeric(status: int) | Symbolic(name: string) | NoCode

  datatype Error = Error(code: ErrorCode, message: string)

  datatype Option<+T> = None | Some(value: T)

  datatype Result<+T> = Ok(value: T) | Err(error: Error)

  /** The one error the uploader does not propagate: `error.code === 404`. */
  predicate IsNotFound(e: Error) {
    e.code == Numeric(404)
  }

  /** The error the storage client reports for an object that does not exist. */
  const NotFound: Error := Error(Numeric(404), "No such object")
}
