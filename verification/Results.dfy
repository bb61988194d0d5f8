/** Failure-compatible result types shared by the codecs. */
module Results {

  datatype Option<+T> = None | Some(value: T)

  /** The reasons for which the C++ code throws. */
  datatype Error =
    | NoHandler   // registry lookup failed
    | BadCast     // the accessor is not of the class the handler expects
    | Underrun    // read past the end of the buffer
    | BadText     // malformed UUID or hexadecimal text
    | TooMany     // push_back beyond maxOccurs
    | BadJson     // JSON tree of the wrong form

  datatype Result<+T> = Ok(value: T) | Err(error: Error) {
    predicate IsFailure() {
      Err?
    }

    function PropagateFailure<U>(): Result<U>
      requires Err?
    {
      Err(error)
    }

    function Extract(): T
      requires Ok?
    {
      value
    }
  }
}
