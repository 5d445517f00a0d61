/**
 * Java's unchecked exceptions as the resource services throw them, and the
 * outcome of one service call against an in-memory table.
 */
module Exceptions {

  /** The two exception classes the services throw. `IllegalStateException`
      is a subclass of `RuntimeException`, so a `catch (RuntimeException e)`
      clause catches both. */
  datatype Exception =
    | RuntimeException(message: string)
    | IllegalStateException(message: string)

  /** What a Java call does: return a value or throw. */
  datatype Result<T> = Returned(value: T) | Threw(exception: Exception)

  /** A service call against a table keyed by `K`: what the call did and the
      table as it is afterwards. */
  datatype Step<T, K, V> = Step(result: Result<T>, table: map<K, V>)
}
