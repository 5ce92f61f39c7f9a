/** Errors raised by the configuration-variable engine and a failure-compatible
    result type: every exception `pyinstl` raises becomes an `Err` value. */
module Results {

  /** The exceptions the engine raises. The Python code raises a bare
      `Exception` (or lets the list or dict raise `IndexError`/`KeyError`);
      each gets a kind of its own here. */
  datatype Error =
    | NotResolved                      // a read of the resolved values while dirty
    | MissingKey(name: string)         // dict indexing with an unknown name
    | IndexOutOfRange(index: int)      // list indexing past the end
    | ImmutableVariable(name: string)  // a mutation of a constant variable
    | DuplicateConstant(name: string)  // a constant registered under a taken name
    | CircularReference(name: string)  // a name needed while it is being resolved

  datatype Result<+T> = Ok(value: T) | Err(error: Error) {

    predicate IsFailure() {
      Err?
    }

    function PropagateFailure<U>(): Result<U>
      requires Err?
    {
      Err(error)
    }

    function Extract(): T
      requires Ok?
    {
      value
    }
  }

  /** A value that may be absent, as a regex match that may fail. */
  datatype Option<+T> = None | Some(value: T)
}
