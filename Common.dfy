/** Types shared by the two catalog controllers: optional request fields,
    the outcome of a request and the state it leaves, and Laravel's `required` rule on text. */
module Common {

  /** Primary keys are auto-increment integers. */
  type Id = nat

  datatype Option<T> = None | Some(value: T)

  /** How a request can fail: 404, 400, or an unhandled exception (500). */
  datatype Error = NotFound | ValidationError | ServerError

  datatype Result<T> = Ok(value: T) | Err(error: Error)

  /** The state `S` of a controller after a request, and the request's answer. */
  datatype Step<S, T> = Step(after: S, result: Result<T>)

  /** The characters PHP's `trim` removes by default. */
  const TrimmedChars: string := " \t\n\r\0\U{000B}"

  /** Text that `trim` reduces to the empty string. */
  predicate Blank(s: string)
  {
    forall i :: 0 <= i < |s| ==> s[i] in TrimmedChars
  }

  /** Laravel's `required` rule on a text field: the field is present and
      not blank. */
  predicate Filled(v: Option<string>)
  {
    v.Some? && !Blank(v.value)
  }
}
