/** Error values shared by every component: Go's `error` interface as the
    program uses it, i.e. leaf messages (`errors.New`) and context wrapping
    (`errors.Wrap` from github.com/pkg/errors). */
module Errors {

  /** Absent or present; `:-` propagates absence. */
  datatype Option<+T> = None | Some(value: T) {
    predicate IsFailure() { None? }

    function PropagateFailure<U>(): Option<U>
      requires None?
    {
      None
    }

    function Extract(): T
      requires Some?
    {
      value
    }
  }

  /** An error built by `errors.New(text)` or `errors.Wrap(cause, context)`. */
  datatype Error = Msg(text: string) | Wrap(context: string, cause: Error)

  /** A Go `(value, error)` pair where exactly one side is meaningful. */
  datatype Result<+T> = Ok(value: T) | Err(error: Error)

  /** What `err.Error()` prints: a wrapped error reads "context: cause". */
  function Message(e: Error): string
  {
    match e
    case Msg(t) => t
    case Wrap(c, inner) => c + ": " + Message(inner)
  }
}
