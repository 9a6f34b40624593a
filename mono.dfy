/**
  A Mono that has run to completion, seen from its subscriber: it either
  completed empty, emitted exactly one value, or signalled an error.

  Every Mono in the modelled tests is synchronous (`Mono.just`, or an operator
  over one), so its whole life reduces to one of these three outcomes. A Java
  exception thrown inside an operator's lambda is caught by Reactor and turned
  into an error signal; the model writes both as `Error`.
*/
module Publishers {

  /** The failures a modelled pipeline can deliver to its subscriber. */
  datatype Fault =
    | NullPointer   // a method was called on an absent (null) field
    | NumberFormat  // `new BigInteger(text)` was given text that is not a number

  datatype Mono<T> = Empty | Just(value: T) | Error(fault: Fault)
  {
    /** `Mono.filter`: a value that fails `p` is dropped. */
    function Filter(p: T -> bool): Mono<T> {
      match this
      case Just(v) => if p(v) then this else Empty
      case _ => this
    }

    /** `Mono.map`. */
    function Map<U>(f: T -> U): Mono<U> {
      match this
      case Just(v) => Just(f(v))
      case Empty => Empty
      case Error(e) => Error(e)
    }

    /** `Mono.flatMap`: `f` is applied only when a value was emitted. */
    function FlatMap<U>(f: T -> Mono<U>): Mono<U> {
      match this
      case Just(v) => f(v)
      case Empty => Empty
      case Error(e) => Error(e)
    }

    /**
      `Mono.switchIfEmpty(Mono.defer(fallback))`: the supplier `fallback` is
      called only when this Mono completed empty.
    */
    function SwitchIfEmpty(fallback: () -> Mono<T>): Mono<T> {
      if Empty? then fallback() else this
    }
  }
}
