# A* search state

A model of `AStarState`, the bookkeeping object of an A* pathfinder over a 2D
grid. It holds two collections keyed by location: the *open* waypoints, which
are candidates for expansion, and the *closed* waypoints, whose locations are
finalised. It also holds a reference to the map being navigated. The driver
asks for the open waypoint with the least estimated total cost and closes it.
It then offers each successor waypoint. An offer is a relaxation: it replaces
an open waypoint only when it reaches the same location by a strictly
cheaper path.

Modules:

- `Wrappers`: `Option` and `Result`. They stand for Java's `null` and for the
  exception the constructor throws.
- `Waypoints`: the `Waypoint` record and the `Float.MAX_VALUE` constant.
  A waypoint has a location, a `previousCost` (the cost of the path so far),
  a `totalCost` (`previousCost` plus the heuristic) and a predecessor link.
  The location type is a type parameter with equality.
- `Bookkeeping`: the state as a value. `Offer` specifies relaxation and
  `Close` specifies the move from open to closed. `Run` and `OfferAll` apply
  sequences of these operations. Lemmas state what any such sequence leads to.
- `AStar`: the class `AStarState`. Its fields `open` and `closed` are maps
  that its methods update in place. The min-scan is a loop over the open
  keys, taken in an arbitrary order, as a hash map's keys are.
- `Scenarios`: driver code that uses only the class's contracts. It includes
  the input on which the source's min-scan misses an open waypoint.

The source's field `map` is called `grid` here because `map` is a reserved
word in Dafny. It is a `const`, so it cannot change after construction.

Two behaviours of the code are kept as written:

- Adding a waypoint does not check the closed map. So a closed location can
  be opened again and then be in both maps (`Bookkeeping.ReopenAfterClose`).
  Open and closed are therefore not proved disjoint.
- Closing a location that has no open waypoint still records it as closed.
  The stored value is `None`, matching the `null` that the source's `put`
  stores. This is not a precondition of `CloseWaypoint`.

## Model

| member | source | states |
|---|---|---|
| `Bookkeeping.Offer` | AStarState.java:83-104 | after an offer, the open keys are the old keys plus the waypoint's location; every other entry is unchanged; a new location gets the offered waypoint; at an existing location the stored previousCost becomes the minimum of the old and the offered cost, and the stored waypoint is the old one or the offered one; the map changes exactly when the offer is an improvement (new location or strictly smaller previousCost) |
| `Bookkeeping.Close` | AStarState.java:119-126 | after closing, the location is not open and is closed; the other open entries and the other closed entries are unchanged; the closed entry holds the waypoint that was open there, or none when nothing was open |
| `Bookkeeping.OfferSize` | AStarState.java:83-112 | an offer adds one to the number of open waypoints when the location was not open, and nothing otherwise |
| `Bookkeeping.CloseSize` | AStarState.java:107-126 | closing takes one from the number of open waypoints when the location was open, and nothing otherwise |
| `Bookkeeping.OfferIdempotent` | AStarState.java:93-102 | offering the same waypoint a second time is refused (equal cost does not replace) and leaves the open map unchanged |
| `Bookkeeping.RunWellKeyed` | AStarState.java:87-97 | any sequence of offers and closes keeps every stored waypoint under its own location |
| `Bookkeeping.RunOpenKeys` | AStarState.java:83-126 | after any sequence of offers and closes, a location is open exactly when it was open and never closed, or some step offered a waypoint there and no later step closed it |
| `Bookkeeping.RunOpenCount` | AStarState.java:83-126 | after any sequence of offers and closes, the set of open keys is exactly the locations initially open or offered and not closed since, so the number of open waypoints is the number of those distinct locations |
| `Bookkeeping.RunKeepsMinimum` | AStarState.java:83-126 | in any sequence of offers and closes, the location of an offer made after the last close of that location is open at the end, and the waypoint stored there costs no more than that offer |
| `Bookkeeping.RunClosedKeys` | AStarState.java:119-137 | after any sequence of offers and closes, a location is closed exactly when it was closed before or some step closed it; no step removes a closed location |
| `Bookkeeping.OfferAllKeepsMinimum` | AStarState.java:74-104 | after any sequence of offers, a location is open exactly when it was open or was offered; the waypoint stored there is the initial one or one of the offered ones, and its previousCost is at most the initial one and at most every offered one at that location |
| `Bookkeeping.ReopenAfterClose` | AStarState.java:83-104 | offering a waypoint at a location just closed puts it in the open map while the location stays closed |
| `AStar.AStarState.constructor` | AStarState.java:24-30 | a new state holds the given map and two empty collections |
| `AStar.AStarState.Create` | AStarState.java:24-30 | construction fails with `NullMap` exactly when the map is null; otherwise the fresh state holds the map and two empty collections |
| `AStar.AStarState.GetMap` | AStarState.java:32-36 | returns the map given at construction |
| `AStar.AStarState.GetMinOpenWaypoint` | AStarState.java:38-72 | returns none exactly when no waypoint is open; otherwise it returns the open waypoint stored at its own location, and no open waypoint has a smaller totalCost; no state changes |
| `AStar.AStarState.GetMinOpenWaypointWithSentinel` | AStarState.java:43-71 | the scan as written returns none exactly when every open totalCost is at least Float.MAX_VALUE; otherwise it returns an open waypoint with the least totalCost, and that cost is below Float.MAX_VALUE |
| `AStar.AStarState.AddOpenWaypoint` | AStarState.java:74-104 | returns true exactly when no waypoint was open at the location or the new previousCost is strictly smaller; the open map becomes `Offer` of the old one; the closed map is unchanged |
| `AStar.AStarState.NumOpenWaypoints` | AStarState.java:107-112 | returns the number of open locations |
| `AStar.AStarState.CloseWaypoint` | AStarState.java:115-126 | the new state is `Close` of the old one at that location |
| `AStar.AStarState.IsLocationClosed` | AStarState.java:128-137 | true exactly when the location is a key of the closed map |
| `Scenarios.SentinelHidesOnlyWaypoint` | AStarState.java:54-70 | with a single open waypoint of totalCost Float.MAX_VALUE, the scan as written returns none and the corrected scan returns that waypoint |

## Findings

| source | as written | input that shows it | evidently intended | confidence | as-written member | corrected member |
|---|---|---|---|---|---|---|
| AStarState.java:56-64 | the scan starts from a best cost of `Float.MAX_VALUE` and takes only totals strictly below the best so far | one open waypoint whose totalCost is `Float.MAX_VALUE` (or positive infinity): the result is null although a waypoint is open | null only when nothing is open (doc comment, lines 38-42) | medium, not executed | `AStar.AStarState.GetMinOpenWaypointWithSentinel`, `Scenarios.SentinelHidesOnlyWaypoint` | `AStar.AStarState.GetMinOpenWaypoint` |

## Left out

- AStar.AStarState.GetMinOpenWaypoint: does not say which of several tied waypoints is returned. The source keeps the first one in hash-map iteration order, and that order is unspecified.
- AStar.AStarState.NumOpenWaypoints: returns an unbounded count. The source's `HashMap.size()` saturates at `Integer.MAX_VALUE`.
- Costs are reals. Java `float` rounding and NaN are not modelled. The source only compares costs with `<`.
- `Location` is any type with equality. Its `equals` and `hashCode` are not part of this model.
- `Waypoint` is a value. Object identity of waypoints and the predecessor chain are not modelled; the state never reads or changes them.
- `addOpenWaypoint(null)` is not modelled. A waypoint here is a value and cannot be null; the source throws a `NullPointerException` at `newWP.getLocation()` for it.
- `Map2D` is an empty class. The state only stores and returns the reference.
- The A* driver loop, successor generation and the heuristic are not part of this model.
- A stored `null` in the open map cannot occur here. The source's `getOrDefault(..., null) == null` test is modelled as "no key", which is the same as long as no null waypoint is offered.
