/** The Option type used for operations that can fail. */
module Wrappers {

  datatype Option<+T> = None | Some(value: T) {
    predicate IsFailure() {
      None?
    }

    function PropagateFailure<U>(): Option<U>
      requires None?
    {
      None
    }

    function Extract(): T
      requires Some?
    {
      value
    }
  }

  /** Prefixes `xs` to the value of `o`, keeping a failure a failure. */
  function Prepend<T>(xs: seq<T>, o: Option<seq<T>>): (r: Option<seq<T>>)
    ensures r.Some? <==> o.Some?
    ensures r.Some? ==> r.value == xs + o.value
  {
    match o
    case None => None
    case Some(ys) => Some(xs + ys)
  }
}
