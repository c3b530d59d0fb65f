/**
 The bookkeeping state of the A* pathfinder: the open waypoints (candidates
 for expansion) and the closed waypoints (finalised locations), both keyed by
 location, together with the map being navigated.
 */
module AStar {
  import opened Wrappers
  import opened Waypoints
  import opened Bookkeeping

  /** The navigable surface. The search state only stores a reference to it and never calls into it. */
  class Map2D {
    constructor () {}
  }

  /** The exception the source throws when it is given no map. */
  datatype Error = NullMap

  class AStarState<L(==)> {
    /** The map being navigated (`map` in the source, a reserved word here); fixed at construction. */
    const grid: Map2D
    var open: map<L, Waypoint<L>>
    var closed: map<L, Option<Waypoint<L>>>

    ghost function State(): Frontier<L>
      reads this
    {
      Frontier(open, closed)
    }

    /** The object invariant: every stored waypoint sits under its own location. */
    ghost predicate Valid()
      reads this
    {
      WellKeyed(State())
    }

    constructor (grid: Map2D)
      ensures Valid()
      ensures this.grid == grid && open == map[] && closed == map[]
    {
      this.grid := grid;
      open := map[];
      closed := map[];
    }

    /** The source's constructor: a null map is refused with an exception, otherwise both collections start empty. */
    static method Create(grid: Map2D?) returns (r: Result<AStarState<L>, Error>)
      ensures r.Failure? <==> grid == null
      ensures r.Failure? ==> r.error == NullMap
      ensures r.Success? ==> fresh(r.value) && r.value.Valid() && r.value.grid == grid
      ensures r.Success? ==> r.value.open == map[] && r.value.closed == map[]
    {
      if grid == null {
        return Failure(NullMap);
      }
      var s := new AStarState(grid);
      return Success(s);
    }

    /** The map given at construction. */
    function GetMap(): (m: Map2D)
      ensures m == grid
    {
      grid
    }

    /**
     The open waypoint with the least totalCost, or None when nothing is open.
     Keys are visited in an arbitrary order, as a hash map's are; a strictly
     smaller cost replaces the best so far. The first key visited seeds the
     best, instead of the source's Float.MAX_VALUE sentinel (see
     GetMinOpenWaypointWithSentinel).
     */
    method GetMinOpenWaypoint() returns (r: Option<Waypoint<L>>)
      requires Valid()
      ensures r.None? <==> |open| == 0
      ensures r.Some? ==> r.value.location in open && open[r.value.location] == r.value
      ensures r.Some? ==> forall k :: k in open ==> r.value.totalCost <= open[k].totalCost
    {
      var n := NumOpenWaypoints();
      if n == 0 {
        return None;
      }
      var keys := open.Keys;
      var best: Option<Waypoint<L>> := None;
      while keys != {}
        invariant keys <= open.Keys
        invariant best.None? ==> keys == open.Keys
        invariant best.Some? ==> best.value.location in open && open[best.value.location] == best.value
        invariant best.Some? ==> forall k :: k in open.Keys - keys ==> best.value.totalCost <= open[k].totalCost
        decreases keys
      {
        var loc :| loc in keys;
        var wp := open[loc];
        if best.None? || wp.totalCost < best.value.totalCost {
          best := Some(wp);
        }
        keys := keys - {loc};
      }
      r := best;
    }

    /**
     The min-scan as the source writes it: the best cost starts at
     Float.MAX_VALUE, so an open waypoint is only ever chosen when its
     totalCost is below that value. When every open totalCost is at least
     Float.MAX_VALUE the result is None although waypoints are open.
     */
    method GetMinOpenWaypointWithSentinel() returns (r: Option<Waypoint<L>>)
      requires Valid()
      ensures r.None? <==> forall k :: k in open ==> open[k].totalCost >= FloatMax
      ensures r.Some? ==> r.value.location in open && open[r.value.location] == r.value
      ensures r.Some? ==> r.value.totalCost < FloatMax
      ensures r.Some? ==> forall k :: k in open ==> r.value.totalCost <= open[k].totalCost
    {
      var n := NumOpenWaypoints();
      if n == 0 {
        return None;
      }
      var keys := open.Keys;
      var bestPoint: Option<Waypoint<L>> := None;
      var bestCost: real := FloatMax;
      while keys != {}
        invariant keys <= open.Keys
        invariant bestCost <= FloatMax
        invariant forall k :: k in open.Keys - keys ==> bestCost <= open[k].totalCost
        invariant bestPoint.None? ==> bestCost == FloatMax
        invariant bestPoint.Some? ==> bestPoint.value.totalCost == bestCost < FloatMax
        invariant bestPoint.Some? ==> bestPoint.value.location in open && open[bestPoint.value.location] == bestPoint.value
        decreases keys
      {
        var loc :| loc in keys;
        var wp := open[loc];
        var wpCost := wp.totalCost;
        if wpCost < bestCost {
          bestPoint := Some(open[loc]);
          bestCost := wpCost;
        }
        keys := keys - {loc};
      }
      r := bestPoint;
    }

    /**
     Offers `w` to the open waypoints: it is stored when no waypoint is open at
     its location or when it reaches that location by a strictly cheaper path,
     and the result says whether it was stored. The closed waypoints are not
     consulted and not changed.
     */
    method AddOpenWaypoint(w: Waypoint<L>) returns (added: bool)
      requires Valid()
      modifies this
      ensures Valid()
      ensures added <==> w.location !in old(open) || w.previousCost < old(open)[w.location].previousCost
      ensures open == Offer(old(open), w)
      ensures closed == old(closed)
    {
      var oldWp := Lookup(open, w.location);
      if oldWp.None? {
        open := open[w.location := w];
        return true;
      } else {
        if w.previousCost < oldWp.value.previousCost {
          open := open[w.location := w];
          return true;
        } else {
          return false;
        }
      }
    }

    /** The number of open waypoints. */
    method NumOpenWaypoints() returns (n: nat)
      ensures n == |open.Keys|
    {
      n := |open|;
    }

    /**
     Moves the waypoint at `loc` from the open to the closed waypoints. When no
     waypoint is open at `loc`, `loc` is still recorded as closed, with no
     waypoint (the source stores null).
     */
    method CloseWaypoint(loc: L)
      requires Valid()
      modifies this
      ensures Valid()
      ensures State() == Close(old(State()), loc)
    {
      closed := closed[loc := Lookup(open, loc)];
      open := open - {loc};
    }

    /** Whether `loc` has been closed. */
    method IsLocationClosed(loc: L) returns (b: bool)
      ensures b <==> loc in closed
    {
      b := loc in closed;
    }
  }
}
