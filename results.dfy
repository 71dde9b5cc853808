/**
 * The error type of the calendar code and the two wrappers its signatures use.
 */
module Results {

  /** Rust's `Option`; `Unwrap` may only be applied where the value is known to be there. */
  datatype Option<T> = None | Some(value: T) {
    function Unwrap(): T
      requires Some?
    {
      value
    }
  }

  /** The only error kind: a field value outside its legal range. */
  datatype Error = OutOfRange

  /** `Result<T>` with the single error kind above. */
  datatype Result<T> = Ok(value: T) | Err(error: Error) {
    function Unwrap(): T
      requires Ok?
    {
      value
    }
  }
}
