/** Small sum types shared by every module of the model. */
module Wrappers {

  /** A value that may be absent: `java.util.Optional`, a nullable slot, a search that may fail. */
  datatype Option<+T> = None | Some(value: T)

  /** How a Java call completes: it returns a value, or it throws. */
  datatype Completion<+T, +E> = Normal(value: T) | Abrupt(thrown: E) {

    /** Rewrites the returned value, keeping a thrown exception as it is. */
    function MapValue<U>(f: T -> U): (r: Completion<U, E>)
      ensures r.Normal? <==> Normal?
      ensures Normal? ==> r.value == f(value)
      ensures Abrupt? ==> r.thrown == thrown
    {
      match this
      case Normal(v) => Normal(f(v))
      case Abrupt(e) => Abrupt(e)
    }
  }
}
