/** The success-or-failure values every application service returns
    (AMS.Application/Common/Models/Result.cs), plus the Option used for
    nullable fields. */
module Results {

  datatype Option<+T> = None | Some(value: T)

  /** The non-generic Result: either success, or a failure carrying a message. */
  datatype Result = Ok | Err(message: string) {
    predicate IsSuccess() { Ok? }
    predicate IsFailure() { !IsSuccess() }
    function Error(): string { if Ok? then "" else message }
  }

  /** Result<T>: a success carries a value; a failure carries only its message
      (the source stores `default` as the value of a failure, which no caller reads). */
  datatype ValueResult<+T> = Value(value: T) | NoValue(message: string) {
    predicate IsSuccess() { Value? }
    predicate IsFailure() { !IsSuccess() }
    function Error(): string { if Value? then "" else message }
    /** The non-generic view of this result. */
    function AsResult(): (r: Result)
      ensures r.IsSuccess() == IsSuccess() && r.Error() == Error()
    {
      if Value? then Ok else Err(message)
    }
  }

  /** `Result.Success()`: succeeds with an empty error text. */
  function Success(): (r: Result)
    ensures r.IsSuccess() && !r.IsFailure() && r.Error() == ""
  {
    Ok
  }

  /** `Result.Failure(error)`: fails and reports exactly `error`. */
  function Failure(error: string): (r: Result)
    ensures !r.IsSuccess() && r.IsFailure() && r.Error() == error
  {
    Err(error)
  }

  /** `Result<T>.Success(value)`: succeeds, carries `value`, empty error text. */
  function SuccessWith<T>(v: T): (r: ValueResult<T>)
    ensures r.IsSuccess() && !r.IsFailure() && r.value == v && r.Error() == ""
  {
    Value(v)
  }

  /** `Result<T>.Failure(error)`: fails and reports exactly `error`. */
  function FailureOf<T>(error: string): (r: ValueResult<T>)
    ensures !r.IsSuccess() && r.IsFailure() && r.Error() == error
  {
    NoValue(error)
  }

  /** `IsFailure` is always the negation of `IsSuccess`, for both kinds of result. */
  lemma FailureIsNotSuccess<T>(r: Result, v: ValueResult<T>)
    ensures r.IsFailure() <==> !r.IsSuccess()
    ensures v.IsFailure() <==> !v.IsSuccess()
  {
  }
}
