/** Results and the errors the wrapper can return. */
module Outcomes {

  /** Why an operation did not produce a value. */
  datatype Error =
    /** The external git process could not start or exited non-zero;
        its cause is opaque to this package. */
    | InvocationFailure(message: string)
    /** strconv.Atoi refused its input: not a decimal integer, or outside
        the 64-bit range. Go's ErrSyntax and ErrRange are not told apart. */
    | NumError(input: string)
    /** The Go code would index a slice of `length` elements at `index`
        and panic; the model returns this error instead. */
    | IndexOutOfRange(index: nat, length: nat)

  /** A value, or the error that replaced it (Go's `(T, error)` pair). */
  datatype Result<T> = Ok(value: T) | Err(error: Error)
}
