/** The exceptions the core throws, as values (Exceptions.java and the JDK/Spring
    exceptions the core lets escape). */
module Exceptions {

  datatype Error =
    | DocumentNotFound          // DocumentNotFoundException
    | UserNotFound              // UserNotFoundException
    | AccessDenied              // Spring's AccessDeniedException
    | IndexOutOfBounds          // (String)IndexOutOfBoundsException from StringBuilder / substring
    | UnsupportedExportFormat   // UnsupportedExportFormatException
    | NullPointer               // NullPointerException on a missing document owner

  /** A Java `T` or `null`. */
  datatype Option<+T> = None | Some(value: T) {
    function GetOr(default: T): T {
      match this
      case Some(v) => v
      case None => default
    }
  }

  /** A value, or the exception thrown instead of returning it. */
  datatype Result<+T> = Ok(value: T) | Err(error: Error) {
    /** The value, or `default` when the call threw. */
    function GetOr(default: T): T {
      match this
      case Ok(v) => v
      case Err(_) => default
    }

    /** Forgets the value: whether the call returned or threw. */
    function ToOutcome(): Outcome {
      match this
      case Ok(_) => Pass
      case Err(e) => Fail(e)
    }
  }

  /** A `void` call that either returns or throws. */
  datatype Outcome = Pass | Fail(error: Error)
}
