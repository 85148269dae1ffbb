/** Failure-carrying values shared by every component: the .NET exceptions the
    modelled members throw, and the null reference as an absent value. */
module Results {

  /** A value that may be absent; `None` stands for a .NET null reference. */
  datatype Option<+T> = None | Some(value: T)

  /** The exceptions thrown by the modelled members, with the parameter name
      they report where the source passes one. */
  datatype Exception =
    | ArgumentNullException(paramName: string)
    | ArgumentException(paramName: string)
    | ArgumentOutOfRangeException(paramName: string)
    | NotSupportedException
    | InvalidOperationException

  /** The outcome of a member that either returns a value or throws. */
  datatype Result<+T> = Success(value: T) | Failure(error: Exception)

  /** The outcome of a member that returns nothing or throws. */
  datatype Outcome = Pass | Fail(error: Exception)
}
