/** Failure-carrying datatypes used in place of the exceptions thrown by the
    mail pipeline: a missing value, a value-or-error result, and a
    pass-or-fail outcome for checks that produce no value. */
module Results {

  datatype Option<+T> = None | Some(value: T)

  datatype Result<+T, +E> = Success(value: T) | Failure(error: E)

  datatype Outcome<+E> = Pass | Fail(error: E)
}
