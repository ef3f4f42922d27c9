/** Outcomes of the version scripts: a value, or the exception the script would end with. */
module Results {

  datatype Option<+T> = None | Some(value: T)

  /** The two kinds of exception the scripts can end with. `InvalidVersion` is the
      `ValueError` the semver library raises for a string that is not a semantic
      version, carrying that string; `Raised` is an `Exception` the script raises
      itself, carrying its message. */
  datatype Error = InvalidVersion(text: string) | Raised(message: string)

  datatype Result<+T> = Ok(value: T) | Err(error: Error) {

    predicate IsFailure() {
      Err?
    }

    function PropagateFailure<U>(): Result<U>
      requires Err?
    {
      Err(error)
    }

    function Extract(): T
      requires Ok?
    {
      value
    }
  }
}
