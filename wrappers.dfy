/** Optional values: the model's stand-in for pandas' NaN and NaT. */
module Wrappers {

  datatype Option<+T> = None | Some(value: T)

  /** Applies `f` to a present value and leaves an absent one absent. */
  function MapOption<T, U>(o: Option<T>, f: T -> U): (r: Option<U>)
    ensures r.Some? <==> o.Some?
    ensures o.Some? ==> r.value == f(o.value)
  {
    match o
    case None => None
    case Some(v) => Some(f(v))
  }
}
