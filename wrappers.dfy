/** Optional values and results that carry the Java exception a call would throw. */
module Wrappers {

  datatype Option<T> = None | Some(value: T)

  /** The exceptions the modelled code throws, by class. */
  datatype JavaError =
    | IllegalArgument(message: string)       // java.lang.IllegalArgumentException
    | NumberFormat                           // java.lang.NumberFormatException
    | IndexOutOfBounds                       // java.lang.StringIndexOutOfBoundsException
    | Runtime(message: string)               // java.lang.RuntimeException
    | PatternSyntax                          // java.util.regex.PatternSyntaxException (message not modelled)
    | Unmodelled                             // a result a Dafny char cannot hold (a UTF-16 surrogate)

  datatype Result<T> = Success(value: T) | Failure(error: JavaError)
  {
    predicate IsFailure() { Failure? }

    function PropagateFailure<U>(): Result<U>
      requires Failure?
    {
      Failure(error)
    }

    function Extract(): T
      requires Success?
    {
      value
    }
  }
}
