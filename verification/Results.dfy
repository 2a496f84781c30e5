/** Outcomes: the classes of exception `basic_json` throws become error values. */
module Results {

  datatype Error =
    | OutOfRange
    | DomainError
    | InvalidArgument
    | LengthError       // a vector asked to grow past its maximal size
    | AssertionFailure  // an `assert` in the source that can be violated
    | OutOfBounds       // no exception: the source accesses memory outside its storage

  datatype Result<+T> = Ok(value: T) | Err(error: Error) {
    predicate IsFailure() { Err? }

    function PropagateFailure<U>(): Result<U>
      requires Err?
    {
      Err(error)
    }

    function Extract(): T
      requires Ok?
    {
      value
    }
  }

  datatype Option<+T> = None | Some(value: T)
}
