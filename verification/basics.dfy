/** Small value types shared by the routing and packing modules. */
module Basics {

  datatype Option<T> = None | Some(value: T)

  /** A geographic point (latitude, longitude) in degrees. */
  datatype Location = Location(lat: real, lng: real)

  /** No element occurs twice, stated through multiplicities. */
  ghost predicate NoRepeats<T(!new)>(s: seq<T>)
  {
    forall x :: multiset(s)[x] <= 1
  }

  /** `x` is the smaller of `a` and `b`. */
  function Min(a: real, b: real): (x: real)
    ensures x <= a && x <= b && (x == a || x == b)
  {
    if a <= b then a else b
  }

  /** The larger of `a` and `b`; its bounds are stated where it is used. */
  function Max(a: real, b: real): real
  {
    if a >= b then a else b
  }
}
