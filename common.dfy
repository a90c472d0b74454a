/** Values shared by every handler of the server: an optional value (a
    JavaScript `undefined`) and the outcome of a request, which is either a
    result or an HTTP status with the message the server sends back. */
module Common {

  datatype Option<+T> = None | Some(value: T)

  /** The JSON error body `{ message }` together with its HTTP status. */
  datatype Failure = Failure(status: nat, message: string)

  datatype Result<+T> = Ok(value: T) | Err(failure: Failure)
}
