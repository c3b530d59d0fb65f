/**
 Client code for AStar.AStarState: the driver's uses of the search state,
 checked against the contracts alone, and the input on which the source's
 min-scan misses an open waypoint.
 */
module Scenarios {
  import opened Wrappers
  import opened Waypoints
  import opened AStar

  /**
   A single open waypoint whose totalCost is exactly Float.MAX_VALUE: the scan
   as the source writes it finds nothing, the corrected scan finds it.
   */
  method SentinelHidesOnlyWaypoint<L(==)>(grid: Map2D, at: L)
    returns (asWritten: Option<Waypoint<L>>, corrected: Option<Waypoint<L>>)
    ensures asWritten == None
    ensures corrected == Some(Waypoint(at, 0.0, FloatMax, None))
  {
    var s := new AStarState<L>(grid);
    var w := Waypoint(at, 0.0, FloatMax, None);
    var added := s.AddOpenWaypoint(w);
    assert s.open == map[at := w];
    asWritten := s.GetMinOpenWaypointWithSentinel();
    corrected := s.GetMinOpenWaypoint();
  }

  /** Offers at one location with previousCost 10, then 12, then 7. */
  method RelaxationScenario<L(==)>(grid: Map2D, at: L)
  {
    var s := new AStarState<L>(grid);
    var first := s.AddOpenWaypoint(Waypoint(at, 10.0, 15.0, None));
    assert first && s.open[at].previousCost == 10.0;
    var second := s.AddOpenWaypoint(Waypoint(at, 12.0, 17.0, None));
    assert !second && s.open[at].previousCost == 10.0;
    var third := s.AddOpenWaypoint(Waypoint(at, 7.0, 12.0, None));
    assert third && s.open[at].previousCost == 7.0;
  }

  /** Open locations a, b, c with totalCost 5, 3 and 8: the scan picks b's waypoint. */
  method MinScenario<L(==)>(grid: Map2D, a: L, b: L, c: L)
    requires a != b && b != c && a != c
  {
    var s := new AStarState<L>(grid);
    var wb := Waypoint(b, 1.0, 3.0, None);
    var added := s.AddOpenWaypoint(Waypoint(a, 1.0, 5.0, None));
    added := s.AddOpenWaypoint(wb);
    added := s.AddOpenWaypoint(Waypoint(c, 1.0, 8.0, None));
    assert s.open[a].totalCost == 5.0 && s.open[c].totalCost == 8.0;
    var best := s.GetMinOpenWaypoint();
    assert best == Some(wb);
  }

  /** Only `at` is open; after it is closed nothing is open and `at` is closed. */
  method CloseScenario<L(==)>(grid: Map2D, at: L)
  {
    var s := new AStarState<L>(grid);
    var w := Waypoint(at, 0.0, 4.0, None);
    var added := s.AddOpenWaypoint(w);
    s.CloseWaypoint(at);
    var n := s.NumOpenWaypoints();
    assert n == 0;
    var isClosed := s.IsLocationClosed(at);
    assert isClosed && s.closed[at] == Some(w);
    var best := s.GetMinOpenWaypoint();
    assert best == None;
  }
}
