/** The error value a provider function reports, and the result of running
    one: either the value written to the function's result or that error. */
module FuncErrors {

  /** A function error carrying its message text. */
  datatype FuncError = FuncError(text: string)

  /** The message both repository helpers give for a malformed name. */
  const InvalidRepositoryName: FuncError :=
    FuncError("Invalid repository name, expected format is owner/repo")

  datatype Result<+T> = Success(value: T) | Failure(error: FuncError)
}
