/**
 A waypoint is one candidate node of the A* search: a location, the cost of the
 path that reached it, the estimated total cost through it, and a link to the
 waypoint it was reached from. The search state reads the two costs and the
 location and never changes a waypoint.
 */
module Waypoints {
  import opened Wrappers

  /** The largest finite Java `float`, (2 - 2^-23) * 2^127, used by the source as the starting "best cost". */
  const FloatMax: real := 340282346638528859811704183484516925440.0

  /**
   `L` is the location type: any type with equality (the source keys hash maps by it).
   `previous` is the predecessor link kept for path reconstruction by the caller.
   */
  datatype Waypoint<L> = Waypoint(location: L, previousCost: real, totalCost: real, previous: Option<Waypoint<L>>)

  function Min(a: real, b: real): (m: real)
    ensures m <= a && m <= b
    ensures m == a || m == b
  {
    if a <= b then a else b
  }
}
