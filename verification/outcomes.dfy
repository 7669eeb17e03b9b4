/** Failure-carrying values shared by the ledger model: Python's `None` and the
    exceptions the modelled code can raise become ordinary values. */
module Outcomes {

  /** A value that may be absent (Python's `None`). */
  datatype Option<+T> = None | Some(value: T)

  /** The exceptions the modelled code raises, as data. */
  datatype Error =
    | DivisionByZero                 // `a // m` with `m == 0` in mod_inverse
    | InvalidLiteral(token: string)  // `int(token)` rejects a ciphertext token
    | NotACharacter(code: int)       // `chr(code)` has no character to return

  /** Either the value an operation returns or the exception it raises. */
  datatype Result<+T> = Success(value: T) | Failure(error: Error)
}
