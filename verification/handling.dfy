/**
 * What a REST handler method produces: the envelope it returns, or an
 * exception its `catch` clause does not cover, which escapes to the web
 * framework. The two `catch` clauses the controllers use are modelled here.
 */
module Handling {
  import opened Exceptions
  import opened Envelope
  import opened Wrappers

  datatype Reply<T> = Handled(response: Response<T>) | Escaped(exception: Exception)

  /** A handler call against a table: its reply and the table afterwards. */
  datatype Exchange<T, K, V> = Exchange(reply: Reply<T>, table: map<K, V>)

  /** `catch (RuntimeException e) { return newFailed(e.getMessage(), BAD_REQUEST); }`:
      covers both exception classes, since `IllegalStateException` is a
      `RuntimeException`. */
  function CatchRuntimeException<T>(e: Exception): (r: Reply<T>)
    ensures r.Handled? && WellFormed(r.response) && !r.response.ifSuccess
    ensures r.response.errorMessage == Some(e.message) && r.response.status == BadRequest
  {
    Handled(NewFailed(e.message, BadRequest))
  }

  /** `catch (IllegalStateException e) { return newFailed(e.getMessage(), BAD_REQUEST); }`:
      any other `RuntimeException` escapes. */
  function CatchIllegalState<T>(e: Exception): (r: Reply<T>)
    ensures r.Handled? <==> e.IllegalStateException?
    ensures r.Handled? ==> WellFormed(r.response) && !r.response.ifSuccess
    ensures r.Handled? ==> r.response.errorMessage == Some(e.message) && r.response.status == BadRequest
    ensures r.Escaped? ==> r.exception == e
  {
    if e.IllegalStateException? then Handled(NewFailed(e.message, BadRequest)) else Escaped(e)
  }
}
