/** Optional values and operations that may throw. */
module Outcomes {

  /** `None` stands for JavaScript's `null` / "no such thing". */
  datatype Option<+T> = None | Some(value: T)

  /** The outcome of an operation that either returns a value or throws an `Error` with a message. */
  datatype Result<+T> = Ok(value: T) | Fail(message: string)
  {
    /** `catch (err) { err.message = prefix + err.message; throw err; }` around the operation. */
    function Annotated(prefix: string): Result<T>
    {
      match this
      case Ok(v) => Ok(v)
      case Fail(m) => Fail(prefix + m)
    }
  }
}
