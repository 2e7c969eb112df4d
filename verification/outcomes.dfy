/** Values shared by every layer: nullable references, the closed set of
    error kinds a datasource reports, the outcome of a call, and the
    predicates over nullable strings that more than one layer uses. */
module Outcomes {

  /** A nullable field or reference; `None` plays the part of Java's null. */
  datatype Option<+T> = None | Some(value: T)

  /** The three kinds every datasource failure is sorted into. */
  datatype ErrorKind = NotFound | ValidationError | DatabaseError

  /** A HandlerException: a kind tag and a human-readable message. */
  datatype Error = Error(kind: ErrorKind, message: string)

  /** What a datasource or service call returns, or the HandlerException it throws. */
  datatype Result<+T> = Ok(value: T) | Err(error: Error) {

    /** True when this is a failure of kind `k`. */
    predicate Fails(k: ErrorKind) {
      Err? && error.kind == k
    }
  }

  /** An exception caught by a datasource and re-thrown as DATABASE_ERROR: the
      operation's prefix followed by the caught exception's message. */
  function Wrapped(prefix: string, cause: string): Error {
    Error(DatabaseError, prefix + cause)
  }

  /** What one repository call returns, or the message of the exception it throws. */
  datatype Attempt<+T> = Done(value: T) | Thrown(message: string)

  /** Bean Validation's @NotBlank: not null, and something left once String.trim
      has stripped the characters up to U+0020. */
  predicate NotBlank(s: Option<string>) {
    s.Some? && exists i :: 0 <= i < |s.value| && s.value[i] > ' '
  }

  /** Java string concatenation renders a null string as "null". */
  function Show(s: Option<string>): string {
    match s
    case Some(v) => v
    case None => "null"
  }
}
