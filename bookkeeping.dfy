/**
 The specification of the A* search state as values: the open and the closed
 collection, what offering a waypoint and closing a location do to them, and
 what any sequence of those operations leads to.
 */
module Bookkeeping {
  import opened Wrappers
  import opened Waypoints

  /**
   The open candidates and the closed (finalised) locations, each keyed by
   location. A closed entry is None when the location was closed while no
   waypoint was open at it (the source then stores null).
   */
  datatype Frontier<L> = Frontier(open: map<L, Waypoint<L>>, closed: map<L, Option<Waypoint<L>>>)

  /** Every stored waypoint sits under its own location. */
  ghost predicate WellKeyed<L>(f: Frontier<L>)
  {
    && (forall k :: k in f.open ==> f.open[k].location == k)
    && (forall k :: k in f.closed && f.closed[k].Some? ==> f.closed[k].value.location == k)
  }

  /** A map lookup that yields None for a missing key, as Java's `Map.get` yields null. */
  function Lookup<K, V>(m: map<K, V>, k: K): (r: Option<V>)
    ensures r.Some? <==> k in m
    ensures r.Some? ==> r.value == m[k]
  {
    if k in m then Some(m[k]) else None
  }

  /**
   Whether offering `w` changes the open map: there is no open waypoint at its
   location yet, or `w` reaches that location by a strictly cheaper path.
   */
  predicate Improves<L>(open: map<L, Waypoint<L>>, w: Waypoint<L>)
  {
    w.location !in open || w.previousCost < open[w.location].previousCost
  }

  /** The open map after `w` is offered to it: shortest-path relaxation on previousCost. */
  function Offer<L>(open: map<L, Waypoint<L>>, w: Waypoint<L>): (r: map<L, Waypoint<L>>)
    ensures r.Keys == open.Keys + {w.location}
    ensures forall k :: k in open && k != w.location ==> r[k] == open[k]
    ensures w.location !in open ==> r[w.location] == w
    ensures w.location in open ==> r[w.location].previousCost == Min(open[w.location].previousCost, w.previousCost)
    ensures r[w.location] == w || (w.location in open && r[w.location] == open[w.location])
    ensures r == open <==> !Improves(open, w)
  {
    if Improves(open, w) then open[w.location := w] else open
  }

  /** The state after the waypoint at `loc` moves from the open map to the closed map. */
  function Close<L>(f: Frontier<L>, loc: L): (g: Frontier<L>)
    ensures loc !in g.open && loc in g.closed
    ensures g.open.Keys == f.open.Keys - {loc}
    ensures forall k :: k in g.open ==> g.open[k] == f.open[k]
    ensures g.closed.Keys == f.closed.Keys + {loc}
    ensures forall k :: k in f.closed && k != loc ==> g.closed[k] == f.closed[k]
    ensures loc in f.open ==> g.closed[loc] == Some(f.open[loc])
    ensures loc !in f.open ==> g.closed[loc] == None
  {
    Frontier(f.open - {loc}, f.closed[loc := Lookup(f.open, loc)])
  }

  /** One state-changing call of the search driver. */
  datatype Step<L> = Add(w: Waypoint<L>) | CloseAt(loc: L)

  function Apply<L>(f: Frontier<L>, s: Step<L>): Frontier<L>
  {
    match s
    case Add(w) => Frontier(Offer(f.open, w), f.closed)
    case CloseAt(loc) => Close(f, loc)
  }

  /** The state after the steps are applied in order. */
  function Run<L>(f: Frontier<L>, steps: seq<Step<L>>): Frontier<L>
    decreases |steps|
  {
    if steps == [] then f else Apply(Run(f, steps[..|steps| - 1]), steps[|steps| - 1])
  }

  /** Some step at index `i` or later closes `l`. */
  ghost predicate ClosedFrom<L>(steps: seq<Step<L>>, i: nat, l: L)
  {
    exists j :: i <= j < |steps| && steps[j] == CloseAt(l)
  }

  /** The open map after the waypoints are offered in order. */
  function OfferAll<L>(open: map<L, Waypoint<L>>, ws: seq<Waypoint<L>>): map<L, Waypoint<L>>
    decreases |ws|
  {
    if ws == [] then open else Offer(OfferAll(open, ws[..|ws| - 1]), ws[|ws| - 1])
  }

  /** An offer adds one open entry when the location was not open, and none otherwise. */
  lemma OfferSize<L>(open: map<L, Waypoint<L>>, w: Waypoint<L>)
    ensures |Offer(open, w)| == if w.location in open then |open| else |open| + 1
  {
  }

  /** Closing removes one open entry when the location was open, and none otherwise. */
  lemma CloseSize<L>(f: Frontier<L>, loc: L)
    ensures |Close(f, loc).open| == if loc in f.open then |f.open| - 1 else |f.open|
  {
  }

  /** Offering the same waypoint twice: the second offer is refused and changes nothing. */
  lemma OfferIdempotent<L>(open: map<L, Waypoint<L>>, w: Waypoint<L>)
    ensures !Improves(Offer(open, w), w)
    ensures Offer(Offer(open, w), w) == Offer(open, w)
  {
  }

  /** Both operations keep every waypoint under its own location. */
  lemma {:induction false} RunWellKeyed<L>(f: Frontier<L>, steps: seq<Step<L>>)
    requires WellKeyed(f)
    ensures WellKeyed(Run(f, steps))
    decreases |steps|
  {
    if steps != [] {
      RunWellKeyed(f, steps[..|steps| - 1]);
    }
  }

  lemma ClosedFromSnoc<L>(p: seq<Step<L>>, s: Step<L>, i: nat, l: L)
    requires i <= |p|
    ensures ClosedFrom(p + [s], i, l) <==> ClosedFrom(p, i, l) || s == CloseAt(l)
  {
    var q := p + [s];
    if ClosedFrom(q, i, l) {
      var j :| i <= j < |q| && q[j] == CloseAt(l);
      if j < |p| {
        assert p[j] == q[j];
      }
    }
    if ClosedFrom(p, i, l) {
      var j :| i <= j < |p| && p[j] == CloseAt(l);
      assert q[j] == p[j];
    }
    if s == CloseAt(l) {
      assert q[|p|] == s;
    }
  }

  /**
   A location is open after a run exactly when it was open before and no step
   closed it, or some step offered a waypoint at it and no later step closed it.
   So the number of open waypoints is the number of distinct locations offered
   (or initially open) and not closed since.
   */
  lemma {:induction false} RunOpenKeys<L>(f: Frontier<L>, steps: seq<Step<L>>, l: L)
    ensures l in Run(f, steps).open <==>
              (l in f.open && !ClosedFrom(steps, 0, l))
              || exists i :: 0 <= i < |steps| && steps[i].Add? && steps[i].w.location == l && !ClosedFrom(steps, i + 1, l)
    decreases |steps|
  {
    if steps == [] {
      return;
    }
    var n := |steps| - 1;
    var p, s := steps[..n], steps[n];
    assert steps == p + [s];
    RunOpenKeys(f, p, l);
    ClosedFromSnoc(p, s, 0, l);
    assert !ClosedFrom(steps, n + 1, l);
    forall i | 0 <= i < n
      ensures steps[i] == p[i]
      ensures ClosedFrom(steps, i + 1, l) <==> ClosedFrom(p, i + 1, l) || s == CloseAt(l)
    {
      ClosedFromSnoc(p, s, i + 1, l);
    }
    var before := Run(f, p);
    assert Run(f, steps) == Apply(before, s);
    match s
    case Add(w) =>
      if w.location == l {
        assert l in Run(f, steps).open;
        assert steps[n].Add? && steps[n].w.location == l && !ClosedFrom(steps, n + 1, l);
      }
    case CloseAt(c) =>
      if c == l {
        assert l !in Run(f, steps).open;
        assert ClosedFrom(steps, 0, l);
        assert forall i :: 0 <= i < |steps| && steps[i].Add? ==> ClosedFrom(steps, i + 1, l);
      }
  }

  /** A location is closed after a run exactly when it was closed before or some step closed it: closed locations stay closed. */
  lemma {:induction false} RunClosedKeys<L>(f: Frontier<L>, steps: seq<Step<L>>, l: L)
    ensures l in Run(f, steps).closed <==> l in f.closed || ClosedFrom(steps, 0, l)
    decreases |steps|
  {
    if steps != [] {
      var n := |steps| - 1;
      var p, s := steps[..n], steps[n];
      assert steps == p + [s];
      RunClosedKeys(f, p, l);
      ClosedFromSnoc(p, s, 0, l);
    }
  }

  /** The locations at which some step offers a waypoint. */
  ghost function Offered<L>(steps: seq<Step<L>>): set<L>
  {
    set i | 0 <= i < |steps| && steps[i].Add? :: steps[i].w.location
  }

  /** The locations initially open or offered during the run that no later step closes. */
  ghost function Live<L>(f: Frontier<L>, steps: seq<Step<L>>): set<L>
  {
    set l | l in f.open.Keys + Offered(steps) &&
            ((l in f.open && !ClosedFrom(steps, 0, l))
             || exists i :: 0 <= i < |steps| && steps[i].Add? && steps[i].w.location == l && !ClosedFrom(steps, i + 1, l))
  }

  /**
   The open locations after a run are exactly the live ones, so the number of
   open waypoints is the number of distinct locations initially open or
   offered and not closed since.
   */
  lemma RunOpenCount<L>(f: Frontier<L>, steps: seq<Step<L>>)
    ensures Run(f, steps).open.Keys == Live(f, steps)
    ensures |Run(f, steps).open| == |Live(f, steps)|
  {
    forall l
      ensures l in Run(f, steps).open <==> l in Live(f, steps)
    {
      RunOpenKeys(f, steps, l);
    }
  }

  /**
   In any run of offers and closes, the waypoint open at `l` at the end costs
   no more than any waypoint offered at `l` after the last close of `l`.
   */
  lemma {:induction false} RunKeepsMinimum<L>(f: Frontier<L>, steps: seq<Step<L>>, l: L, i: nat)
    requires i < |steps| && steps[i].Add? && steps[i].w.location == l && !ClosedFrom(steps, i + 1, l)
    ensures l in Run(f, steps).open
    ensures Run(f, steps).open[l].previousCost <= steps[i].w.previousCost
    decreases |steps|
  {
    var n := |steps| - 1;
    var p, s := steps[..n], steps[n];
    assert steps == p + [s];
    var before := Run(f, p);
    assert Run(f, steps) == Apply(before, s);
    if i < n {
      ClosedFromSnoc(p, s, i + 1, l);
      assert p[i] == steps[i];
      RunKeepsMinimum(f, p, l, i);
      match s
      case Add(w) =>
      case CloseAt(c) =>
        assert c != l;
    }
  }

  /**
   After a sequence of offers, a location is open exactly when it was open or
   was offered, and the waypoint stored there is one of those, with the least
   previousCost among them.
   */
  lemma {:induction false} OfferAllKeepsMinimum<L>(open: map<L, Waypoint<L>>, ws: seq<Waypoint<L>>, l: L)
    ensures l in OfferAll(open, ws) <==> l in open || exists i :: 0 <= i < |ws| && ws[i].location == l
    ensures l in OfferAll(open, ws) ==>
              && (l in open ==> OfferAll(open, ws)[l].previousCost <= open[l].previousCost)
              && (forall i :: 0 <= i < |ws| && ws[i].location == l ==> OfferAll(open, ws)[l].previousCost <= ws[i].previousCost)
              && ((l in open && OfferAll(open, ws)[l] == open[l])
                  || exists i :: 0 <= i < |ws| && ws[i].location == l && OfferAll(open, ws)[l] == ws[i])
    decreases |ws|
  {
    if ws == [] {
      return;
    }
    var n := |ws| - 1;
    var p, w := ws[..n], ws[n];
    assert forall i :: 0 <= i < n ==> ws[i] == p[i];
    OfferAllKeepsMinimum(open, p, l);
    var before := OfferAll(open, p);
    var after := OfferAll(open, ws);
    assert after == Offer(before, w);
    if w.location == l {
      assert l in after;
      if l in before {
        assert after[l].previousCost <= before[l].previousCost;
        assert after[l].previousCost <= w.previousCost;
      } else {
        assert after[l] == ws[n];
      }
    } else if l in before {
      assert after[l] == before[l];
    }
  }

  /**
   The closed map is not consulted when a waypoint is offered, so a closed
   location can be opened again and then sits in both maps.
   */
  lemma ReopenAfterClose<L>(f: Frontier<L>, w: Waypoint<L>)
    ensures var g := Apply(Apply(f, CloseAt(w.location)), Add(w));
            w.location in g.open && w.location in g.closed && g.open[w.location] == w
  {
  }
}
