/**
 * The uniform response envelope every REST endpoint returns
 * (`response.Response`), and its three static constructors.
 */
module Envelope {
  import opened Wrappers

  /** The HTTP statuses the endpoints use. */
  datatype HttpStatus = Ok | BadRequest {
    function Code(): nat {
      match this
      case Ok => 200
      case BadRequest => 400
    }
  }

  /** `data`, `infoMessage` and `errorMessage` are `None` where the Java
      object leaves the field null. */
  datatype Response<T> = Response(
    data: Option<T>,
    ifSuccess: bool,
    infoMessage: Option<string>,
    errorMessage: Option<string>,
    status: HttpStatus)

  /** The shape every constructed envelope has: a success carries data,
      status OK and no error message; a failure carries an error message and
      neither data nor an info message. */
  predicate WellFormed<T>(r: Response<T>) {
    if r.ifSuccess then
      r.status == Ok && r.data.Some? && r.errorMessage.None?
    else
      r.data.None? && r.infoMessage.None? && r.errorMessage.Some?
  }

  /** `newSuccess(data)`. */
  function NewSuccess<T>(data: T): (r: Response<T>)
    ensures WellFormed(r) && r.ifSuccess
    ensures r.data == Some(data) && r.infoMessage.None?
  {
    Response(Some(data), true, None, None, Ok)
  }

  /** `newSuccess(data, infoMessage)`. */
  function NewSuccessWithInfo<T>(data: T, info: string): (r: Response<T>)
    ensures WellFormed(r) && r.ifSuccess
    ensures r.data == Some(data) && r.infoMessage == Some(info)
  {
    Response(Some(data), true, Some(info), None, Ok)
  }

  /** `newFailed(errorMessage, status)`. */
  function NewFailed<T>(errorMessage: string, status: HttpStatus): (r: Response<T>)
    ensures WellFormed(r) && !r.ifSuccess
    ensures r.errorMessage == Some(errorMessage) && r.status == status
  {
    Response(None, false, None, Some(errorMessage), status)
  }

  /** The three constructors produce every well-formed envelope and nothing
      else: each well-formed envelope is the output of one of them. */
  lemma WellFormedIsConstructed<T>(r: Response<T>)
    requires WellFormed(r)
    ensures r.ifSuccess && r.infoMessage.None? ==> r == NewSuccess(r.data.value)
    ensures r.ifSuccess && r.infoMessage.Some? ==> r == NewSuccessWithInfo(r.data.value, r.infoMessage.value)
    ensures !r.ifSuccess ==> r == NewFailed(r.errorMessage.value, r.status)
  {
  }
}
