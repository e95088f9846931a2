/** Result codes of the library and the value-or-error type its operations return. */
module Results {
  datatype Error =
    | Eof | InvalidParam | InvalidPosition | NotAligned | Overflow
    | BadMagic | Version | Corrupt | NotFound | Truncated | Alphabet

  datatype Result<+T> = Ok(value: T) | Err(error: Error) {
    predicate IsFailure() {
      Err?
    }

    function PropagateFailure<U>(): Result<U>
      requires Err?
    {
      Err(error)
    }

    function Extract(): T
      requires Ok?
    {
      value
    }
  }

  datatype Option<+T> = None | Some(value: T)
}
