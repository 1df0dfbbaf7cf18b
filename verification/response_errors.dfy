/** The failures a response value can raise, and the result type that carries
    them in place of the C++ exceptions.

    - InvalidCall: the `std::logic_error` thrown whenever an operation is
      invoked on a value of the wrong kind;
    - DuplicateMember: the `std::runtime_error` thrown when a Map already holds
      the name being added;
    - MissingMember: the `std::runtime_error` thrown when a Map member lookup
      finds no entry of that name;
    - OutOfRange: the `std::out_of_range` raised by the bounds-checked List
      element access.
 */
module ResponseErrors {

  datatype Error = InvalidCall | DuplicateMember | MissingMember | OutOfRange

  /** Either the value an operation produces, or the error it throws. Each of
      the four errors above is thrown before any mutation, so an `Err` also
      means that the receiver is left as it was. */
  datatype Result<+T> = Ok(value: T) | Err(error: Error) {

    predicate IsFailure() {
      Err?
    }

    function PropagateFailure<U>(): Result<U>
      requires Err?
    {
      Err(error)
    }

    function Extract(): T
      requires Ok?
    {
      value
    }
  }
}
