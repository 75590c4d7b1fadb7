/** The insertion builders: greedy best insertion and GRASP with a restricted
    candidate list. Both start from one empty route and insert stations one at
    a time; when no insertion is feasible they open a new route seeded with the
    feasible singleton nearest the depot. */
module Construction {
  import opened Instance
  import opened Routes
  import opened Costs
  import opened Feasibility
  import opened Solutions
  import opened Random
  import opened Constructive

  /** Where a station may go: station s, route r, position p. */
  datatype Slot = Slot(s: int, r: int, p: int)

  /** The order in which the builders' nested loops visit the slots. */
  predicate Before(a: Slot, b: Slot) {
    a.s < b.s || (a.s == b.s && (a.r < b.r || (a.r == b.r && a.p < b.p)))
  }

  /** Slot x is a feasible insertion: an unvisited station, inserted before a
      position 1..|route| - 1 of an existing route, leaves that route feasible. */
  predicate Insertion(inst: Instance, unvisited: seq<bool>, routes: seq<Route>, x: Slot) {
    1 <= x.s <= inst.n && x.s < |unvisited| && unvisited[x.s] &&
    0 <= x.r < |routes| && 1 <= x.p <= |routes[x.r]| - 1 &&
    Feasible(inst, InsertAt(routes[x.r], x.p, x.s))
  }

  /** Cost of a feasible insertion: the route's cost after it minus before. */
  function Delta(inst: Instance, unvisited: seq<bool>, routes: seq<Route>, x: Slot): int
    requires inst.Valid() && AllInRange(inst, routes) && Insertion(inst, unvisited, routes, x)
  {
    assert InRange(inst, routes[x.r]);
    RouteCost(inst, InsertAt(routes[x.r], x.p, x.s)) - RouteCost(inst, routes[x.r])
  }

  /** The best insertion found so far. */
  datatype Choice = NoChoice | Choice(slot: Slot, delta: int)

  /** c is what the best-insertion scan holds once it has looked at every slot
      before cut: none exactly when no slot before cut is a feasible insertion,
      otherwise the first slot of least delta among them. */
  ghost predicate BestBefore(inst: Instance, unvisited: seq<bool>, routes: seq<Route>, c: Choice, cut: Slot)
    requires inst.Valid() && AllInRange(inst, routes)
  {
    (c.NoChoice? ==> forall x :: Before(x, cut) ==> !Insertion(inst, unvisited, routes, x)) &&
    (c.Choice? ==>
      Before(c.slot, cut) && Insertion(inst, unvisited, routes, c.slot) &&
      c.delta == Delta(inst, unvisited, routes, c.slot) &&
      forall x :: Before(x, cut) && Insertion(inst, unvisited, routes, x) ==>
        c.delta <= Delta(inst, unvisited, routes, x) &&
        (Before(x, c.slot) ==> c.delta < Delta(inst, unvisited, routes, x)))
  }

  /** Moving the cut over slots that are not insertions keeps the choice. */
  lemma AdvanceCut(inst: Instance, unvisited: seq<bool>, routes: seq<Route>, c: Choice, cut1: Slot, cut2: Slot)
    requires inst.Valid() && AllInRange(inst, routes)
    requires BestBefore(inst, unvisited, routes, c, cut1) && !Before(cut2, cut1)
    requires forall x :: Before(x, cut2) && !Before(x, cut1) ==> !Insertion(inst, unvisited, routes, x)
    ensures BestBefore(inst, unvisited, routes, c, cut2)
  {
  }

  /** Looking at the one slot at the cut: a strictly smaller delta takes over. */
  lemma ConsiderSlot(inst: Instance, unvisited: seq<bool>, routes: seq<Route>, c: Choice, s: int, r: int, p: int,
                     ok: bool, d: int, c': Choice)
    requires inst.Valid() && AllInRange(inst, routes)
    requires BestBefore(inst, unvisited, routes, c, Slot(s, r, p))
    requires ok == Insertion(inst, unvisited, routes, Slot(s, r, p))
    requires ok ==> d == Delta(inst, unvisited, routes, Slot(s, r, p))
    requires c' == if ok && (c.NoChoice? || d < c.delta) then Choice(Slot(s, r, p), d) else c
    ensures BestBefore(inst, unvisited, routes, c', Slot(s, r, p + 1))
  {
    var x := Slot(s, r, p);
    var next := Slot(s, r, p + 1);
    if c'.Choice? {
      assert Before(c'.slot, next) && Insertion(inst, unvisited, routes, c'.slot);
      forall y | Before(y, next) && Insertion(inst, unvisited, routes, y)
        ensures c'.delta <= Delta(inst, unvisited, routes, y)
        ensures Before(y, c'.slot) ==> c'.delta < Delta(inst, unvisited, routes, y)
      {
        if y != x {
          assert Before(y, x);
        }
      }
    } else {
      forall y | Before(y, next) ensures !Insertion(inst, unvisited, routes, y) {
        if y != x {
          assert Before(y, x);
        }
      }
    }
  }

  /** One pass of the innermost loop: test station s before position pos of
      route r, and keep it if its delta is strictly below the best so far. */
  method TrySlot(inst: Instance, ghost pool: seq<bool>, routes: seq<Route>, s: int, r: int, pos: int, c0: Choice)
      returns (c: Choice)
    requires inst.Valid() && Shaped(inst, routes) && 0 <= r < |routes| && 1 <= pos < |routes[r]|
    requires 1 <= s <= inst.n && |pool| == inst.n + 1 && pool[s]
    requires BestBefore(inst, pool, routes, c0, Slot(s, r, pos))
    ensures BestBefore(inst, pool, routes, c, Slot(s, r, pos + 1))
  {
    c := c0;
    ghost var d := 0;
    var route := routes[r];
    var test := InsertAt(route, pos, s);
    var info := CheckRouteFeasible(inst, test);
    if info.ok {
      var originalCost := ComputeRouteCost(inst, route);
      var newCost := ComputeRouteCost(inst, test);
      var delta := newCost - originalCost;
      d := delta;
      if c.NoChoice? || delta < c.delta {
        c := Choice(Slot(s, r, pos), delta);
      }
    }
    ConsiderSlot(inst, pool, routes, c0, s, r, pos, info.ok, d, c);
  }

  /** The innermost loop: every insertion position of station s in route r. */
  method ScanPositions(inst: Instance, ghost pool: seq<bool>, routes: seq<Route>, s: int, r: int, c0: Choice)
      returns (c: Choice)
    requires inst.Valid() && Shaped(inst, routes) && 0 <= r < |routes|
    requires 1 <= s <= inst.n && |pool| == inst.n + 1 && pool[s]
    requires BestBefore(inst, pool, routes, c0, Slot(s, r, 1))
    ensures BestBefore(inst, pool, routes, c, Slot(s, r + 1, 1))
  {
    c := c0;
    var pos := 1;
    while pos < |routes[r]|
      invariant 1 <= pos <= |routes[r]|
      invariant BestBefore(inst, pool, routes, c, Slot(s, r, pos))
    {
      c := TrySlot(inst, pool, routes, s, r, pos, c);
      pos := pos + 1;
    }
    AdvanceCut(inst, pool, routes, c, Slot(s, r, pos), Slot(s, r + 1, 1));
  }

  /** The three nested loops of GreedyBestInsertion that search every unvisited
      station, route and position for the feasible insertion of least delta;
      the first one found wins a tie. */
  method BestInsertion(inst: Instance, unvisited: array<bool>, routes: seq<Route>) returns (c: Choice)
    requires inst.Valid() && unvisited.Length == inst.n + 1 && Shaped(inst, routes)
    ensures c.NoChoice? <==> forall x :: !Insertion(inst, unvisited[..], routes, x)
    ensures c.Choice? ==>
      Insertion(inst, unvisited[..], routes, c.slot) && c.delta == Delta(inst, unvisited[..], routes, c.slot)
    ensures c.Choice? ==> forall x :: Insertion(inst, unvisited[..], routes, x) ==>
      c.delta <= Delta(inst, unvisited[..], routes, x) &&
      (Before(x, c.slot) ==> c.delta < Delta(inst, unvisited[..], routes, x))
  {
    ghost var pool := unvisited[..];
    c := NoChoice;
    var station := 1;
    while station <= inst.n
      invariant 1 <= station <= inst.n + 1
      invariant BestBefore(inst, pool, routes, c, Slot(station, 0, 1))
    {
      c := ScanStation(inst, pool, routes, station, unvisited[station], c);
      station := station + 1;
    }
    assert pool == unvisited[..];
    BestComplete(inst, unvisited[..], routes, c);
  }

  /** The loops over the routes and positions for one station, which is
      skipped when it is not in the pool. */
  method ScanStation(inst: Instance, ghost pool: seq<bool>, routes: seq<Route>, station: int, present: bool, c0: Choice)
      returns (c: Choice)
    requires inst.Valid() && Shaped(inst, routes)
    requires 1 <= station <= inst.n && |pool| == inst.n + 1 && present == pool[station]
    requires BestBefore(inst, pool, routes, c0, Slot(station, 0, 1))
    ensures BestBefore(inst, pool, routes, c, Slot(station + 1, 0, 1))
  {
    c := c0;
    if present {
      var r := 0;
      while r < |routes|
        invariant 0 <= r <= |routes|
        invariant BestBefore(inst, pool, routes, c, Slot(station, r, 1))
      {
        c := ScanPositions(inst, pool, routes, station, r, c);
        r := r + 1;
      }
      AdvanceCut(inst, pool, routes, c, Slot(station, r, 1), Slot(station + 1, 0, 1));
    } else {
      AdvanceCut(inst, pool, routes, c, Slot(station, 0, 1), Slot(station + 1, 0, 1));
    }
  }

  /** Once the cut is past station n, the choice is the best of all insertions. */
  lemma BestComplete(inst: Instance, pool: seq<bool>, routes: seq<Route>, c: Choice)
    requires inst.Valid() && AllInRange(inst, routes)
    requires BestBefore(inst, pool, routes, c, Slot(inst.n + 1, 0, 1))
    ensures c.NoChoice? <==> forall x :: !Insertion(inst, pool, routes, x)
    ensures c.Choice? ==> Insertion(inst, pool, routes, c.slot) && c.delta == Delta(inst, pool, routes, c.slot)
    ensures c.Choice? ==> forall x :: Insertion(inst, pool, routes, x) ==>
      c.delta <= Delta(inst, pool, routes, x) &&
      (Before(x, c.slot) ==> c.delta < Delta(inst, pool, routes, x))
  {
    assert forall x :: Insertion(inst, pool, routes, x) ==> Before(x, Slot(inst.n + 1, 0, 1));
  }

  /** The vehicle budget of the insertion builders: they always keep their first
      route, so they may end with one route even when m < 1. */
  function RouteBudget(inst: Instance): int {
    if inst.m < 1 then 1 else inst.m
  }

  /** A partial result of the insertion builders: at least one and at most
      RouteBudget routes, each a 0 ... 0 route over stations that is feasible or
      still the empty route [0, 0], and no station twice. */
  predicate InsertionRoutes(inst: Instance, routes: seq<Route>) {
    && 1 <= |routes| <= RouteBudget(inst)
    && (forall k :: 0 <= k < |routes| ==> StationRoute(inst, routes[k]))
    && (forall k :: 0 <= k < |routes| ==> routes[k] == [0, 0] || Feasible(inst, routes[k]))
    && (forall v :: 1 <= v <= inst.n ==> Nodes(routes)[v] <= 1)
  }

  lemma InsertionRoutesShaped(inst: Instance, routes: seq<Route>)
    requires inst.n >= 0 && InsertionRoutes(inst, routes)
    ensures Shaped(inst, routes)
  {
    forall k | 0 <= k < |routes| ensures InRange(inst, routes[k]) {
      StationRouteInRange(inst, routes[k]);
    }
  }

  /** With Q >= 0 the empty route is feasible too, so every route is. */
  lemma InsertionRoutesFeasible(inst: Instance, routes: seq<Route>)
    requires inst.Valid() && inst.Q >= 0 && InsertionRoutes(inst, routes)
    ensures forall k :: 0 <= k < |routes| ==> Feasible(inst, routes[k])
  {
    EmptyRouteInfo(inst);
  }

  /** Inserting a station strictly inside a route over stations keeps it one. */
  lemma InsertKeepsStationRoute(inst: Instance, route: Route, p: int, v: int)
    requires StationRoute(inst, route) && 1 <= p <= |route| - 1 && inst.IsStation(v)
    ensures StationRoute(inst, InsertAt(route, p, v))
  {
    var route' := InsertAt(route, p, v);
    assert route'[0] == route[0] && route'[|route'| - 1] == route[|route| - 1];
    forall k | 0 < k < |route'| - 1 ensures inst.IsStation(route'[k]) {
      if k < p {
        assert route'[k] == route[k];
      } else if k > p {
        assert route'[k] == route[k - 1];
      }
    }
  }

  /** Inserting station v into one route adds exactly one v to the node count. */
  lemma InsertNodes(routes: seq<Route>, r: int, p: int, v: int)
    requires 0 <= r < |routes| && 0 <= p <= |routes[r]|
    ensures Nodes(routes[r := InsertAt(routes[r], p, v)]) == Nodes(routes) + multiset{v}
  {
    var route' := InsertAt(routes[r], p, v);
    NodesUpdate(routes, r, route');
    InsertAtNodes(routes[r], p, v);
    var after := Nodes(routes[r := route']);
    forall x ensures after[x] == (Nodes(routes) + multiset{v})[x] {
      assert (after + multiset(routes[r]))[x] == (Nodes(routes) + multiset(routes[r]) + multiset{v})[x];
    }
  }

  /** Taking an unvisited station out of the pool and placing it once keeps
      the two in step. */
  lemma TakeStation(inst: Instance, unvisited: seq<bool>, placed: multiset<int>, v: int)
    requires PoolMatches(inst, unvisited, placed) && 1 <= v <= inst.n && unvisited[v]
    ensures PoolMatches(inst, unvisited[v := false], placed + multiset{v})
  {
  }

  /** A pool in step with the placed stations means no station is placed twice. */
  lemma PoolPlacesOnce(inst: Instance, unvisited: seq<bool>, placed: multiset<int>)
    requires PoolMatches(inst, unvisited, placed)
    ensures forall v :: 1 <= v <= inst.n ==> placed[v] <= 1
  {
  }

  /** Replacing one route by a feasible route over stations keeps the
      per-route part of a partial result. */
  lemma ReplaceKeepsRoutes(inst: Instance, routes: seq<Route>, r: int, route': Route, routes': seq<Route>)
    requires 0 <= r < |routes| && StationRoute(inst, route') && Feasible(inst, route')
    requires routes' == routes[r := route']
    requires forall k :: 0 <= k < |routes| ==> StationRoute(inst, routes[k])
    requires forall k :: 0 <= k < |routes| ==> routes[k] == [0, 0] || Feasible(inst, routes[k])
    ensures forall k :: 0 <= k < |routes'| ==> StationRoute(inst, routes'[k])
    ensures forall k :: 0 <= k < |routes'| ==> routes'[k] == [0, 0] || Feasible(inst, routes'[k])
  {
  }

  /** Inserting at a feasible slot keeps a partial result, and the pool in step
      with it once the station is taken out. */
  lemma InsertStep(inst: Instance, unvisited: seq<bool>, routes: seq<Route>, x: Slot)
    requires inst.Valid() && InsertionRoutes(inst, routes)
    requires PoolMatches(inst, unvisited, Nodes(routes)) && Insertion(inst, unvisited, routes, x)
    ensures InsertionRoutes(inst, routes[x.r := InsertAt(routes[x.r], x.p, x.s)])
    ensures PoolMatches(inst, unvisited[x.s := false], Nodes(routes[x.r := InsertAt(routes[x.r], x.p, x.s)]))
  {
    var route' := InsertAt(routes[x.r], x.p, x.s);
    InsertKeepsStationRoute(inst, routes[x.r], x.p, x.s);
    ReplaceKeepsRoutes(inst, routes, x.r, route', routes[x.r := route']);
    InsertNodes(routes, x.r, x.p, x.s);
    TakeStation(inst, unvisited, Nodes(routes), x.s);
    PoolPlacesOnce(inst, unvisited[x.s := false], Nodes(routes[x.r := route']));
  }

  /** Opening the route [0, v, 0] adds one v to the node count. */
  lemma SeedNodes(routes: seq<Route>, v: int)
    ensures Nodes(routes + [[0, v, 0]]) == Nodes(routes) + multiset{0, v, 0}
  {
    var routes' := routes + [[0, v, 0]];
    assert routes'[..|routes|] == routes;
    NodesPrefix(routes', |routes|);
  }

  /** Opening the route [0, v, 0] for a station that fits it. */
  lemma SeedStep(inst: Instance, unvisited: seq<bool>, routes: seq<Route>, v: int)
    requires inst.Valid() && InsertionRoutes(inst, routes) && |routes| < inst.m
    requires PoolMatches(inst, unvisited, Nodes(routes)) && Extends(inst, unvisited, [0], v)
    ensures InsertionRoutes(inst, routes + [[0, v, 0]])
    ensures PoolMatches(inst, unvisited[v := false], Nodes(routes + [[0, v, 0]]))
  {
    var routes' := routes + [[0, v, 0]];
    assert [0] + [v, 0] == [0, v, 0];
    SeedPool(inst, unvisited, routes, v);
    PoolPlacesOnce(inst, unvisited[v := false], Nodes(routes'));
    SeedRoutes(inst, routes, v);
  }

  lemma SeedPool(inst: Instance, unvisited: seq<bool>, routes: seq<Route>, v: int)
    requires PoolMatches(inst, unvisited, Nodes(routes)) && 1 <= v <= inst.n && unvisited[v]
    ensures PoolMatches(inst, unvisited[v := false], Nodes(routes + [[0, v, 0]]))
  {
    var routes' := routes + [[0, v, 0]];
    SeedNodes(routes, v);
    TakeStation(inst, unvisited, Nodes(routes), v);
    forall w | 1 <= w <= inst.n ensures Nodes(routes')[w] == (Nodes(routes) + multiset{v})[w] {
    }
  }

  lemma SeedRoutes(inst: Instance, routes: seq<Route>, v: int)
    requires 1 <= v <= inst.n && Feasible(inst, [0, v, 0])
    requires forall k :: 0 <= k < |routes| ==> StationRoute(inst, routes[k])
    requires forall k :: 0 <= k < |routes| ==> routes[k] == [0, 0] || Feasible(inst, routes[k])
    ensures forall k :: 0 <= k < |routes + [[0, v, 0]]| ==> StationRoute(inst, (routes + [[0, v, 0]])[k])
    ensures forall k :: 0 <= k < |routes + [[0, v, 0]]| ==>
      (routes + [[0, v, 0]])[k] == [0, 0] || Feasible(inst, (routes + [[0, v, 0]])[k])
  {
    var routes' := routes + [[0, v, 0]];
    assert StationRoute(inst, [0, v, 0]);
    forall k | 0 <= k < |routes'|
      ensures StationRoute(inst, routes'[k]) && (routes'[k] == [0, 0] || Feasible(inst, routes'[k]))
    {
      if k < |routes| {
        assert routes'[k] == routes[k];
      }
    }
  }

  /** How the insertion builders stop: every station placed, or no feasible
      insertion into any route and either the vehicles used up or no unplaced
      station fitting a route of its own. */
  ghost predicate InsertionStopped(inst: Instance, routes: seq<Route>)
    requires inst.Valid() && AllInRange(inst, routes)
  {
    (forall v :: 1 <= v <= inst.n ==> Nodes(routes)[v] == 1) ||
    ((forall x :: !Insertion(inst, Unplaced(inst, routes), routes, x)) &&
     (|routes| >= inst.m || forall v :: 1 <= v <= inst.n && Nodes(routes)[v] == 0 ==> !Feasible(inst, [0, v, 0])))
  }

  /** The stop condition seen from the pool: no feasible insertion, and either
      the vehicles are used up or no pooled station fits a route of its own. */
  ghost predicate PoolStopped(inst: Instance, unvisited: seq<bool>, routes: seq<Route>) {
    && (forall x :: !Insertion(inst, unvisited, routes, x))
    && (|routes| >= inst.m ||
        forall v :: 1 <= v <= inst.n && v < |unvisited| && unvisited[v] ==> !Feasible(inst, [0, v, 0]))
  }

  lemma PoolStoppedIsStopped(inst: Instance, unvisited: seq<bool>, routes: seq<Route>)
    requires inst.Valid() && AllInRange(inst, routes)
    requires PoolMatches(inst, unvisited, Nodes(routes)) && PoolStopped(inst, unvisited, routes)
    ensures InsertionStopped(inst, routes)
  {
    PoolIsUnplaced(inst, unvisited, routes);
  }

  lemma EmptyPoolIsStopped(inst: Instance, unvisited: seq<bool>, routes: seq<Route>)
    requires inst.Valid() && AllInRange(inst, routes)
    requires PoolMatches(inst, unvisited, Nodes(routes)) && CountTrue(unvisited) == 0
    ensures forall v :: 1 <= v <= inst.n ==> Nodes(routes)[v] == 1
    ensures InsertionStopped(inst, routes)
  {
    CountTrueZero(unvisited);
  }

  /** Apply one chosen insertion (the insert and pool update of a builder round). */
  method Place(inst: Instance, unvisited: array<bool>, routes: seq<Route>, x: Slot) returns (routes': seq<Route>)
    requires inst.Valid() && unvisited.Length == inst.n + 1 && InsertionRoutes(inst, routes)
    requires PoolMatches(inst, unvisited[..], Nodes(routes)) && Insertion(inst, unvisited[..], routes, x)
    modifies unvisited
    ensures routes' == routes[x.r := InsertAt(routes[x.r], x.p, x.s)]
    ensures unvisited[..] == old(unvisited[..])[x.s := false]
    ensures CountTrue(unvisited[..]) == CountTrue(old(unvisited[..])) - 1
    ensures InsertionRoutes(inst, routes') && PoolMatches(inst, unvisited[..], Nodes(routes'))
  {
    InsertStep(inst, unvisited[..], routes, x);
    CountTrueClear(unvisited[..], x.s);
    routes' := routes[x.r := InsertAt(routes[x.r], x.p, x.s)];
    unvisited[x.s] := false;
  }

  /** The else-branch of a builder round: with vehicles left, open the route
      [0, v, 0] for the feasible pooled station nearest to the depot (the
      first one on ties); seed == -1 when the builder stops instead. */
  method OpenOrStop(inst: Instance, unvisited: array<bool>, routes: seq<Route>) returns (routes': seq<Route>, seed: int)
    requires inst.Valid() && unvisited.Length == inst.n + 1 && InsertionRoutes(inst, routes)
    requires PoolMatches(inst, unvisited[..], Nodes(routes))
    requires forall x :: !Insertion(inst, unvisited[..], routes, x)
    modifies unvisited
    ensures seed == -1 ==> routes' == routes && unvisited[..] == old(unvisited[..]) && PoolStopped(inst, unvisited[..], routes)
    ensures seed != -1 ==>
      && |routes| < inst.m && Extends(inst, old(unvisited[..]), [0], seed)
      && routes' == routes + [[0, seed, 0]]
      && unvisited[..] == old(unvisited[..])[seed := false]
      && CountTrue(unvisited[..]) == CountTrue(old(unvisited[..])) - 1
    ensures seed != -1 ==> forall v :: Extends(inst, old(unvisited[..]), [0], v) ==>
      inst.Travel(0, seed) <= inst.Travel(0, v) && (v < seed ==> inst.Travel(0, seed) < inst.Travel(0, v))
    ensures InsertionRoutes(inst, routes') && PoolMatches(inst, unvisited[..], Nodes(routes'))
  {
    if |routes| >= inst.m {
      return routes, -1;
    }
    seed := NearestFeasible(inst, unvisited, [0], 0);
    if seed == -1 {
      forall v | 1 <= v <= inst.n && unvisited[v] ensures !Feasible(inst, [0, v, 0]) {
        assert !Extends(inst, unvisited[..], [0], v);
        assert [0] + [v, 0] == [0, v, 0];
      }
      return routes, -1;
    }
    SeedStep(inst, unvisited[..], routes, seed);
    CountTrueClear(unvisited[..], seed);
    routes' := routes + [[0, seed, 0]];
    unvisited[seed] := false;
  }

  /** The common ending of the insertion builders: the collected routes and their cost. */
  method Finish(inst: Instance, unvisited: array<bool>, routes: seq<Route>, stop: bool) returns (sol: Solution)
    requires inst.Valid() && unvisited.Length == inst.n + 1 && InsertionRoutes(inst, routes)
    requires PoolMatches(inst, unvisited[..], Nodes(routes))
    requires CountTrue(unvisited[..]) == 0 || PoolStopped(inst, unvisited[..], routes)
    ensures fresh(sol) && sol.routes == routes
    ensures InsertionRoutes(inst, sol.routes) && Shaped(inst, sol.routes)
    ensures inst.Q >= 0 ==> forall k :: 0 <= k < |sol.routes| ==> Feasible(inst, sol.routes[k])
    ensures InsertionStopped(inst, sol.routes)
    ensures inst.m >= 1 && inst.Q >= 0 && (forall v :: 1 <= v <= inst.n ==> Nodes(sol.routes)[v] == 1) ==>
      SolutionFeasible(inst, sol.routes)
    ensures sol.totalCost == SolutionCost(inst, sol.routes)
  {
    InsertionRoutesShaped(inst, routes);
    if CountTrue(unvisited[..]) == 0 {
      EmptyPoolIsStopped(inst, unvisited[..], routes);
    } else {
      PoolStoppedIsStopped(inst, unvisited[..], routes);
    }
    if inst.Q >= 0 {
      InsertionRoutesFeasible(inst, routes);
    }
    var cost := ComputeSolutionCost(inst, routes);
    sol := new Solution(routes, cost);
  }

  /** A state of an insertion builder between two passes: the pool flags and
      the routes. */
  datatype Snapshot = Snapshot(pool: seq<bool>, routes: seq<Route>)

  /** What one pass of an insertion builder did: a station inserted at a slot,
      or a new route opened with a seed station. */
  datatype Pass = Inserted(slot: Slot) | Seeded(station: int)

  /** The snapshot of a route set: its routes and the pool that matches them. */
  function SnapshotOf(inst: Instance, routes: seq<Route>): (snap: Snapshot)
    requires inst.n >= 0
    ensures snap.routes == routes
  {
    Snapshot(Unplaced(inst, routes), routes)
  }

  /** The state both builders start from: every station pooled, one empty route. */
  function StartSnapshot(inst: Instance): (s0: Snapshot)
    requires inst.n >= 0
    ensures |s0.pool| == inst.n + 1 && !s0.pool[0] && forall v :: 1 <= v <= inst.n ==> s0.pool[v]
    ensures s0.routes == [[0, 0]]
  {
    Snapshot(seq(inst.n + 1, i => i != 0), [[0, 0]])
  }

  /** Inserting station x.s at position x.p of route x.r, a feasible
      insertion, and taking it out of the pool. */
  ghost predicate Inserts(inst: Instance, before: Snapshot, x: Slot, after: Snapshot) {
    && Insertion(inst, before.pool, before.routes, x)
    && after == Snapshot(before.pool[x.s := false], before.routes[x.r := InsertAt(before.routes[x.r], x.p, x.s)])
  }

  /** The seed rule of both builders: with no feasible insertion left and a
      vehicle to spare, open [0, v, 0] for the nearest station v whose
      singleton route is feasible, the lowest id on ties. */
  ghost predicate Seeds(inst: Instance, before: Snapshot, v: int, after: Snapshot)
    requires inst.Valid() && AllInRange(inst, before.routes)
  {
    && (forall x :: !Insertion(inst, before.pool, before.routes, x))
    && |before.routes| < inst.m && Extends(inst, before.pool, [0], v)
    && (forall w :: Extends(inst, before.pool, [0], w) ==>
          inst.Travel(0, v) <= inst.Travel(0, w) && (w < v ==> inst.Travel(0, v) < inst.Travel(0, w)))
    && after == Snapshot(before.pool[v := false], before.routes + [[0, v, 0]])
  }

  /** One pass of GreedyBestInsertion: the feasible insertion of least delta,
      the first in scan order on ties, or else the seed rule. */
  ghost predicate BestPass(inst: Instance, before: Snapshot, pass: Pass, after: Snapshot) {
    && inst.Valid() && AllInRange(inst, before.routes)
    && match pass
       case Inserted(x) =>
         && Inserts(inst, before, x, after)
         && forall y :: Insertion(inst, before.pool, before.routes, y) ==>
              Delta(inst, before.pool, before.routes, x) <= Delta(inst, before.pool, before.routes, y) &&
              (Before(y, x) ==> Delta(inst, before.pool, before.routes, x) < Delta(inst, before.pool, before.routes, y))
       case Seeded(v) => Seeds(inst, before, v, after)
  }

  /** One pass of BuildInitialGrasp: a feasible insertion whose delta lies in
      the window [min, min + alpha * (max - min)] over all feasible insertions
      (stated for every pair lo, hi of least and greatest delta; such a pair
      exists, by ExtremesIn), or else the seed rule. */
  ghost predicate GraspPass(inst: Instance, alpha: real, before: Snapshot, pass: Pass, after: Snapshot) {
    && inst.Valid() && AllInRange(inst, before.routes)
    && match pass
       case Inserted(x) =>
         && Inserts(inst, before, x, after)
         && forall lo, hi :: Extremes(inst, before.pool, before.routes, lo, hi) ==>
              WithinThreshold(inst, before.pool, before.routes, lo, hi, alpha, Delta(inst, before.pool, before.routes, x))
       case Seeded(v) => Seeds(inst, before, v, after)
  }

  /** Any two pairs of least- and greatest-delta insertions span the same window. */
  lemma WindowEveryPair(inst: Instance, pool: seq<bool>, routes: seq<Route>, alpha: real, d: int)
    requires inst.Valid() && AllInRange(inst, routes)
    requires exists lo, hi :: Extremes(inst, pool, routes, lo, hi) && WithinThreshold(inst, pool, routes, lo, hi, alpha, d)
    ensures forall lo, hi :: Extremes(inst, pool, routes, lo, hi) ==> WithinThreshold(inst, pool, routes, lo, hi, alpha, d)
  {
    var lo, hi :| Extremes(inst, pool, routes, lo, hi) && WithinThreshold(inst, pool, routes, lo, hi, alpha, d);
    forall lo', hi' | Extremes(inst, pool, routes, lo', hi')
      ensures WithinThreshold(inst, pool, routes, lo', hi', alpha, d)
    {
      SameExtremes(inst, pool, routes, lo, hi, lo', hi');
    }
  }

  /** Two pairs of least- and greatest-delta insertions have the same deltas. */
  lemma SameExtremes(inst: Instance, pool: seq<bool>, routes: seq<Route>, lo: Slot, hi: Slot, lo': Slot, hi': Slot)
    requires inst.Valid() && AllInRange(inst, routes)
    requires Extremes(inst, pool, routes, lo, hi) && Extremes(inst, pool, routes, lo', hi')
    ensures Delta(inst, pool, routes, lo) == Delta(inst, pool, routes, lo')
    ensures Delta(inst, pool, routes, hi) == Delta(inst, pool, routes, hi')
  {
    assert Insertion(inst, pool, routes, lo) && Insertion(inst, pool, routes, lo');
    assert Insertion(inst, pool, routes, hi) && Insertion(inst, pool, routes, hi');
  }

  /** A run of GreedyBestInsertion: consecutive snapshots, each reached from the
      one before by a best pass (BestRunEach states it index by index). */
  ghost predicate BestRun(inst: Instance, run: seq<Snapshot>, passes: seq<Pass>)
    decreases |passes|
  {
    && |run| == |passes| + 1
    && (|passes| > 0 ==>
          && BestRun(inst, run[..|passes|], passes[..|passes| - 1])
          && BestPass(inst, run[|passes| - 1], passes[|passes| - 1], run[|passes|]))
  }

  /** A run of BuildInitialGrasp: consecutive snapshots, each reached from the
      one before by a GRASP pass (GraspRunEach states it index by index). */
  ghost predicate GraspRun(inst: Instance, alpha: real, run: seq<Snapshot>, passes: seq<Pass>)
    decreases |passes|
  {
    && |run| == |passes| + 1
    && (|passes| > 0 ==>
          && GraspRun(inst, alpha, run[..|passes|], passes[..|passes| - 1])
          && GraspPass(inst, alpha, run[|passes| - 1], passes[|passes| - 1], run[|passes|]))
  }

  lemma BestRunExtend(inst: Instance, run: seq<Snapshot>, passes: seq<Pass>, pass: Pass, next: Snapshot)
    requires BestRun(inst, run, passes) && BestPass(inst, run[|run| - 1], pass, next)
    ensures BestRun(inst, run + [next], passes + [pass])
  {
    assert (run + [next])[..|run|] == run && (passes + [pass])[..|passes|] == passes;
  }

  lemma GraspRunExtend(inst: Instance, alpha: real, run: seq<Snapshot>, passes: seq<Pass>, pass: Pass, next: Snapshot)
    requires GraspRun(inst, alpha, run, passes) && GraspPass(inst, alpha, run[|run| - 1], pass, next)
    ensures GraspRun(inst, alpha, run + [next], passes + [pass])
  {
    assert (run + [next])[..|run|] == run && (passes + [pass])[..|passes|] == passes;
  }

  /** A builder's passes so far, latest last, each with the state it left. */
  datatype Trace = Begin | Then(earlier: Trace, from: Snapshot, pass: Pass)

  /** t leads by best passes from start to end. */
  ghost predicate BestTrace(inst: Instance, start: Snapshot, t: Trace, end: Snapshot)
    decreases t
  {
    match t
    case Begin => end == start
    case Then(earlier, from, pass) => BestTrace(inst, start, earlier, from) && BestPass(inst, from, pass, end)
  }

  /** t leads by GRASP passes from start to end. */
  ghost predicate GraspTrace(inst: Instance, alpha: real, start: Snapshot, t: Trace, end: Snapshot)
    decreases t
  {
    match t
    case Begin => end == start
    case Then(earlier, from, pass) => GraspTrace(inst, alpha, start, earlier, from) && GraspPass(inst, alpha, from, pass, end)
  }

  /** The passes of a trace, in order. */
  function TracePasses(t: Trace): (passes: seq<Pass>)
    ensures |passes| == TraceLength(t)
  {
    match t
    case Begin => []
    case Then(earlier, _, pass) => TracePasses(earlier) + [pass]
  }

  function TraceLength(t: Trace): nat {
    match t
    case Begin => 0
    case Then(earlier, _, _) => TraceLength(earlier) + 1
  }

  /** The states of a trace ending in end, in order. */
  function TraceStates(t: Trace, end: Snapshot): (run: seq<Snapshot>)
    ensures |run| == TraceLength(t) + 1 && run[|run| - 1] == end
  {
    match t
    case Begin => [end]
    case Then(earlier, from, _) => TraceStates(earlier, from) + [end]
  }

  lemma {:induction false} BestTraceIsRun(inst: Instance, start: Snapshot, t: Trace, end: Snapshot)
    requires BestTrace(inst, start, t, end)
    ensures BestRun(inst, TraceStates(t, end), TracePasses(t)) && TraceStates(t, end)[0] == start
    decreases t
  {
    match t
    case Begin =>
    case Then(earlier, from, pass) =>
      BestTraceIsRun(inst, start, earlier, from);
      BestRunExtend(inst, TraceStates(earlier, from), TracePasses(earlier), pass, end);
  }

  lemma {:induction false} GraspTraceIsRun(inst: Instance, alpha: real, start: Snapshot, t: Trace, end: Snapshot)
    requires GraspTrace(inst, alpha, start, t, end)
    ensures GraspRun(inst, alpha, TraceStates(t, end), TracePasses(t)) && TraceStates(t, end)[0] == start
    decreases t
  {
    match t
    case Begin =>
    case Then(earlier, from, pass) =>
      GraspTraceIsRun(inst, alpha, start, earlier, from);
      GraspRunExtend(inst, alpha, TraceStates(earlier, from), TracePasses(earlier), pass, end);
  }

  /** Every pass of a greedy run is a best pass from the snapshot before it to
      the one after it. */
  lemma {:induction false} BestRunEach(inst: Instance, run: seq<Snapshot>, passes: seq<Pass>)
    requires BestRun(inst, run, passes)
    ensures forall k :: 0 <= k < |passes| ==> BestPass(inst, run[k], passes[k], run[k + 1])
    decreases |passes|
  {
    if |passes| > 0 {
      var n := |passes|;
      BestRunEach(inst, run[..n], passes[..n - 1]);
      forall k | 0 <= k < n ensures BestPass(inst, run[k], passes[k], run[k + 1]) {
        if k < n - 1 {
          assert run[..n][k] == run[k] && run[..n][k + 1] == run[k + 1] && passes[..n - 1][k] == passes[k];
        }
      }
    }
  }

  /** Every pass of a GRASP run is a GRASP pass from the snapshot before it to
      the one after it. */
  lemma {:induction false} GraspRunEach(inst: Instance, alpha: real, run: seq<Snapshot>, passes: seq<Pass>)
    requires GraspRun(inst, alpha, run, passes)
    ensures forall k :: 0 <= k < |passes| ==> GraspPass(inst, alpha, run[k], passes[k], run[k + 1])
    decreases |passes|
  {
    if |passes| > 0 {
      var n := |passes|;
      GraspRunEach(inst, alpha, run[..n], passes[..n - 1]);
      forall k | 0 <= k < n ensures GraspPass(inst, alpha, run[k], passes[k], run[k + 1]) {
        if k < n - 1 {
          assert run[..n][k] == run[k] && run[..n][k + 1] == run[k + 1] && passes[..n - 1][k] == passes[k];
        }
      }
    }
  }

  /** A greedy run is a GRASP run for every alpha >= 0. */
  lemma {:induction false} BestRunIsGraspRun(inst: Instance, alpha: real, run: seq<Snapshot>, passes: seq<Pass>)
    requires alpha >= 0.0 && BestRun(inst, run, passes)
    ensures GraspRun(inst, alpha, run, passes)
    decreases |passes|
  {
    if |passes| > 0 {
      var n := |passes|;
      BestRunIsGraspRun(inst, alpha, run[..n], passes[..n - 1]);
      BestPassIsGraspPass(inst, alpha, run[n - 1], passes[n - 1], run[n]);
    }
  }

  /** The greedy choice lies in every GRASP window: a best pass is a GRASP pass
      for every alpha >= 0. */
  lemma BestPassIsGraspPass(inst: Instance, alpha: real, before: Snapshot, pass: Pass, after: Snapshot)
    requires alpha >= 0.0 && BestPass(inst, before, pass, after)
    ensures GraspPass(inst, alpha, before, pass, after)
  {
    if pass.Inserted? {
      var x := pass.slot;
      var pool, routes := before.pool, before.routes;
      forall lo, hi | Extremes(inst, pool, routes, lo, hi)
        ensures WithinThreshold(inst, pool, routes, lo, hi, alpha, Delta(inst, pool, routes, x))
      {
        assert Delta(inst, pool, routes, x) == Delta(inst, pool, routes, lo);
        WindowAtLeastLow(Delta(inst, pool, routes, lo), Delta(inst, pool, routes, hi), alpha);
      }
    }
  }

  /** The feasible insertions of a state, a finite set. */
  ghost function Insertions(inst: Instance, pool: seq<bool>, routes: seq<Route>): (xs: set<Slot>)
    ensures forall x :: x in xs <==> Insertion(inst, pool, routes, x)
  {
    set s, r, p | 1 <= s <= inst.n && 0 <= r < |routes| && 1 <= p < |routes[r]|
      && Insertion(inst, pool, routes, Slot(s, r, p)) :: Slot(s, r, p)
  }

  /** A non-empty finite set of feasible insertions holds one of least and one
      of greatest delta. */
  lemma {:induction false} ExtremesIn(inst: Instance, pool: seq<bool>, routes: seq<Route>, xs: set<Slot>)
      returns (lo: Slot, hi: Slot)
    requires inst.Valid() && AllInRange(inst, routes) && xs != {}
    requires forall y :: y in xs ==> Insertion(inst, pool, routes, y)
    ensures lo in xs && hi in xs
    ensures forall y :: y in xs ==>
      Delta(inst, pool, routes, lo) <= Delta(inst, pool, routes, y) <= Delta(inst, pool, routes, hi)
    decreases xs
  {
    var y :| y in xs;
    if xs == {y} {
      lo, hi := y, y;
    } else {
      var l, h := ExtremesIn(inst, pool, routes, xs - {y});
      lo := if Delta(inst, pool, routes, l) <= Delta(inst, pool, routes, y) then l else y;
      hi := if Delta(inst, pool, routes, y) <= Delta(inst, pool, routes, h) then h else y;
    }
  }

  /** With alpha = 0 the window closes on the least delta: every station a
      GRASP pass inserts is an insertion of least delta. */
  lemma GraspPassAtZero(inst: Instance, before: Snapshot, pass: Pass, after: Snapshot)
    requires GraspPass(inst, 0.0, before, pass, after) && pass.Inserted?
    ensures forall y :: Insertion(inst, before.pool, before.routes, y) ==>
      Delta(inst, before.pool, before.routes, pass.slot) <= Delta(inst, before.pool, before.routes, y)
  {
    var pool, routes := before.pool, before.routes;
    assert pass.slot in Insertions(inst, pool, routes);
    var lo, hi := ExtremesIn(inst, pool, routes, Insertions(inst, pool, routes));
    assert Extremes(inst, pool, routes, lo, hi);
    assert Window(Delta(inst, pool, routes, lo), Delta(inst, pool, routes, hi), 0.0) == Delta(inst, pool, routes, lo) as real;
  }

  /** GreedyBestInsertion: start from one empty route; repeatedly apply the
      best feasible insertion; when there is none, open a route with the
      nearest feasible station while vehicles remain. */
  method GreedyBestInsertion(inst: Instance) returns (sol: Solution, ghost run: seq<Snapshot>, ghost passes: seq<Pass>)
    requires inst.Valid()
    ensures InsertionRoutes(inst, sol.routes) && Shaped(inst, sol.routes)
    ensures inst.Q >= 0 ==> forall k :: 0 <= k < |sol.routes| ==> Feasible(inst, sol.routes[k])
    ensures InsertionStopped(inst, sol.routes)
    ensures inst.m >= 1 && inst.Q >= 0 && (forall v :: 1 <= v <= inst.n ==> Nodes(sol.routes)[v] == 1) ==>
      SolutionFeasible(inst, sol.routes)
    ensures sol.totalCost == SolutionCost(inst, sol.routes)
    ensures BestRun(inst, run, passes) && run[0] == StartSnapshot(inst) && run[|run| - 1].routes == sol.routes
  {
    var unvisited, routes, remaining := StartBuild(inst);
    StartIsSnapshot(inst);
    ghost var trace := Begin;
    var stop := false;
    while remaining > 0 && !stop
      invariant InsertionRoutes(inst, routes)
      invariant PoolMatches(inst, unvisited[..], Nodes(routes))
      invariant remaining == CountTrue(unvisited[..])
      invariant stop ==> PoolStopped(inst, unvisited[..], routes)
      invariant BestTrace(inst, StartSnapshot(inst), trace, SnapshotOf(inst, routes))
      decreases remaining, if stop then 0 else 1
    {
      var placed;
      routes, placed, trace := BestInsertionStep(inst, unvisited, routes, trace);
      if placed {
        remaining := remaining - 1;
      } else {
        stop := true;
      }
    }
    BestTraceIsRun(inst, StartSnapshot(inst), trace, SnapshotOf(inst, routes));
    run, passes := TraceStates(trace, SnapshotOf(inst, routes)), TracePasses(trace);
    sol := Finish(inst, unvisited, routes, stop);
  }

  /** One pass of the greedy insertion loop: apply the best feasible insertion,
      else open a route with the nearest feasible station; placed is false
      when neither is possible. */
  method BestInsertionStep(inst: Instance, unvisited: array<bool>, routes: seq<Route>, ghost trace: Trace)
      returns (routes': seq<Route>, placed: bool, ghost trace': Trace)
    requires inst.Valid() && unvisited.Length == inst.n + 1
    requires InsertionRoutes(inst, routes) && PoolMatches(inst, unvisited[..], Nodes(routes))
    modifies unvisited
    ensures InsertionRoutes(inst, routes') && PoolMatches(inst, unvisited[..], Nodes(routes'))
    ensures placed ==> CountTrue(unvisited[..]) == CountTrue(old(unvisited[..])) - 1
    requires BestTrace(inst, StartSnapshot(inst), trace, SnapshotOf(inst, routes))
    ensures BestTrace(inst, StartSnapshot(inst), trace', SnapshotOf(inst, routes'))
    ensures placed ==> trace'.Then? && trace'.earlier == trace && trace'.from == SnapshotOf(inst, routes)
    ensures !placed ==> trace' == trace
    ensures !placed ==> routes' == routes && unvisited[..] == old(unvisited[..]) && PoolStopped(inst, unvisited[..], routes')
  {
    InsertionRoutesShaped(inst, routes);
    PoolIsUnplaced(inst, unvisited[..], routes);
    ghost var before := Snapshot(unvisited[..], routes);
    var c := BestInsertion(inst, unvisited, routes);
    if c.Choice? {
      routes' := Place(inst, unvisited, routes, c.slot);
      placed, trace' := true, Then(trace, before, Inserted(c.slot));
      assert Inserts(inst, before, c.slot, Snapshot(unvisited[..], routes'));
    } else {
      var seed;
      routes', seed := OpenOrStop(inst, unvisited, routes);
      placed := seed != -1;
      trace' := if placed then Then(trace, before, Seeded(seed)) else trace;
    }
    PoolIsUnplaced(inst, unvisited[..], routes');
  }

  lemma StartIsSnapshot(inst: Instance)
    requires inst.n >= 0
    ensures SnapshotOf(inst, [[0, 0]]) == StartSnapshot(inst)
  {
    assert Nodes([[0, 0]]) == multiset{0, 0} by {
      assert [[0, 0]][..0] == [];
    }
  }

  /** The start of the insertion builders: every station pooled, one empty route. */
  method StartBuild(inst: Instance) returns (unvisited: array<bool>, routes: seq<Route>, remaining: int)
    requires inst.Valid()
    ensures fresh(unvisited) && unvisited.Length == inst.n + 1
    ensures unvisited[..] == seq(inst.n + 1, i => i != 0) && routes == [[0, 0]] && remaining == inst.n
    ensures InsertionRoutes(inst, routes) && PoolMatches(inst, unvisited[..], Nodes(routes))
    ensures remaining == CountTrue(unvisited[..])
  {
    unvisited := new bool[inst.n + 1](i => i != 0);
    remaining := inst.n;
    CountTrueInitial(unvisited[..]);
    routes := [[0, 0]];
    assert Nodes(routes) == multiset{0, 0} by {
      assert routes[..0] == [];
    }
  }

  /** A GRASP insertion candidate: a feasible slot and its delta. */
  datatype Candidate = Candidate(slot: Slot, delta: int)

  /** cs is what the GRASP candidate scan holds once it has looked at every
      slot before cut: exactly the feasible insertions before cut, in scan
      order, each with its delta. */
  ghost predicate CandidatesBefore(inst: Instance, unvisited: seq<bool>, routes: seq<Route>, cs: seq<Candidate>, cut: Slot)
    requires inst.Valid() && AllInRange(inst, routes)
  {
    && (forall i :: 0 <= i < |cs| ==>
          Before(cs[i].slot, cut) && Insertion(inst, unvisited, routes, cs[i].slot) &&
          cs[i].delta == Delta(inst, unvisited, routes, cs[i].slot))
    && (forall i, j :: 0 <= i < j < |cs| ==> Before(cs[i].slot, cs[j].slot))
    && (forall x :: Before(x, cut) && Insertion(inst, unvisited, routes, x) ==>
          exists i :: 0 <= i < |cs| && cs[i].slot == x)
  }

  /** Moving the cut over slots that are not insertions keeps the candidates. */
  lemma AdvanceCandidates(inst: Instance, unvisited: seq<bool>, routes: seq<Route>, cs: seq<Candidate>,
                          cut1: Slot, cut2: Slot)
    requires inst.Valid() && AllInRange(inst, routes)
    requires CandidatesBefore(inst, unvisited, routes, cs, cut1) && !Before(cut2, cut1)
    requires forall x :: Before(x, cut2) && !Before(x, cut1) ==> !Insertion(inst, unvisited, routes, x)
    ensures CandidatesBefore(inst, unvisited, routes, cs, cut2)
  {
  }

  /** Looking at the one slot at the cut: a feasible one is appended. */
  lemma ConsiderCandidate(inst: Instance, unvisited: seq<bool>, routes: seq<Route>, cs: seq<Candidate>,
                          s: int, r: int, p: int, ok: bool, d: int, cs': seq<Candidate>)
    requires inst.Valid() && AllInRange(inst, routes)
    requires CandidatesBefore(inst, unvisited, routes, cs, Slot(s, r, p))
    requires ok == Insertion(inst, unvisited, routes, Slot(s, r, p))
    requires ok ==> d == Delta(inst, unvisited, routes, Slot(s, r, p))
    requires cs' == if ok then cs + [Candidate(Slot(s, r, p), d)] else cs
    ensures CandidatesBefore(inst, unvisited, routes, cs', Slot(s, r, p + 1))
  {
    var x := Slot(s, r, p);
    var next := Slot(s, r, p + 1);
    if ok {
      AppendCandidate(inst, unvisited, routes, cs, x, d, next);
    } else {
      assert forall y :: Before(y, next) && !Before(y, x) ==> y == x;
      AdvanceCandidates(inst, unvisited, routes, cs, x, next);
    }
  }

  /** A feasible slot at the cut joins the end of the list. */
  lemma AppendCandidate(inst: Instance, unvisited: seq<bool>, routes: seq<Route>, cs: seq<Candidate>,
                        x: Slot, d: int, next: Slot)
    requires inst.Valid() && AllInRange(inst, routes)
    requires CandidatesBefore(inst, unvisited, routes, cs, x)
    requires Insertion(inst, unvisited, routes, x) && d == Delta(inst, unvisited, routes, x)
    requires next == Slot(x.s, x.r, x.p + 1)
    ensures CandidatesBefore(inst, unvisited, routes, cs + [Candidate(x, d)], next)
  {
    var cs' := cs + [Candidate(x, d)];
    forall i | 0 <= i < |cs'|
      ensures Before(cs'[i].slot, next) && Insertion(inst, unvisited, routes, cs'[i].slot)
      ensures cs'[i].delta == Delta(inst, unvisited, routes, cs'[i].slot)
    {
      if i < |cs| {
        assert cs'[i] == cs[i];
      }
    }
    forall i, j | 0 <= i < j < |cs'| ensures Before(cs'[i].slot, cs'[j].slot) {
      assert cs'[i] == cs[i];
      if j < |cs| {
        assert cs'[j] == cs[j];
      }
    }
    AppendCovers(inst, unvisited, routes, cs, x, d, next);
  }

  lemma AppendCovers(inst: Instance, unvisited: seq<bool>, routes: seq<Route>, cs: seq<Candidate>,
                     x: Slot, d: int, next: Slot)
    requires forall y :: Before(y, x) && Insertion(inst, unvisited, routes, y) ==>
      exists i :: 0 <= i < |cs| && cs[i].slot == y
    requires next == Slot(x.s, x.r, x.p + 1)
    ensures forall y :: Before(y, next) && Insertion(inst, unvisited, routes, y) ==>
      exists i :: 0 <= i < |cs + [Candidate(x, d)]| && (cs + [Candidate(x, d)])[i].slot == y
  {
    var cs' := cs + [Candidate(x, d)];
    forall y | Before(y, next) && Insertion(inst, unvisited, routes, y)
      ensures exists i :: 0 <= i < |cs'| && cs'[i].slot == y
    {
      if y == x {
        assert cs'[|cs'| - 1].slot == y;
      } else {
        assert Before(y, x);
        var i :| 0 <= i < |cs| && cs[i].slot == y;
        assert cs'[i].slot == y;
      }
    }
  }

  /** One pass of the innermost GRASP loop: test station s before position
      pos of route r and record it when feasible. */
  method TryCandidate(inst: Instance, ghost pool: seq<bool>, routes: seq<Route>, s: int, r: int, pos: int,
                      cs0: seq<Candidate>) returns (cs: seq<Candidate>)
    requires inst.Valid() && Shaped(inst, routes) && 0 <= r < |routes| && 1 <= pos < |routes[r]|
    requires 1 <= s <= inst.n && |pool| == inst.n + 1 && pool[s]
    requires CandidatesBefore(inst, pool, routes, cs0, Slot(s, r, pos))
    ensures CandidatesBefore(inst, pool, routes, cs, Slot(s, r, pos + 1))
  {
    cs := cs0;
    ghost var d := 0;
    var route := routes[r];
    var test := InsertAt(route, pos, s);
    var info := CheckRouteFeasible(inst, test);
    if info.ok {
      var originalCost := ComputeRouteCost(inst, route);
      var newCost := ComputeRouteCost(inst, test);
      var delta := newCost - originalCost;
      d := delta;
      cs := cs + [Candidate(Slot(s, r, pos), delta)];
    }
    ConsiderCandidate(inst, pool, routes, cs0, s, r, pos, info.ok, d, cs);
  }

  /** The innermost GRASP loop: every insertion position of station s in route r. */
  method CollectPositions(inst: Instance, ghost pool: seq<bool>, routes: seq<Route>, s: int, r: int,
                          cs0: seq<Candidate>) returns (cs: seq<Candidate>)
    requires inst.Valid() && Shaped(inst, routes) && 0 <= r < |routes|
    requires 1 <= s <= inst.n && |pool| == inst.n + 1 && pool[s]
    requires CandidatesBefore(inst, pool, routes, cs0, Slot(s, r, 1))
    ensures CandidatesBefore(inst, pool, routes, cs, Slot(s, r + 1, 1))
  {
    cs := cs0;
    var pos := 1;
    while pos < |routes[r]|
      invariant 1 <= pos <= |routes[r]|
      invariant CandidatesBefore(inst, pool, routes, cs, Slot(s, r, pos))
    {
      cs := TryCandidate(inst, pool, routes, s, r, pos, cs);
      pos := pos + 1;
    }
    AdvanceCandidates(inst, pool, routes, cs, Slot(s, r, pos), Slot(s, r + 1, 1));
  }

  /** The three nested loops of GRASP: every feasible insertion of an unvisited
      station, in scan order, with its delta. */
  method CollectCandidates(inst: Instance, unvisited: array<bool>, routes: seq<Route>) returns (cs: seq<Candidate>)
    requires inst.Valid() && unvisited.Length == inst.n + 1 && Shaped(inst, routes)
    ensures forall i :: 0 <= i < |cs| ==>
      Insertion(inst, unvisited[..], routes, cs[i].slot) && cs[i].delta == Delta(inst, unvisited[..], routes, cs[i].slot)
    ensures forall i, j :: 0 <= i < j < |cs| ==> Before(cs[i].slot, cs[j].slot)
    ensures forall x :: Insertion(inst, unvisited[..], routes, x) ==> exists i :: 0 <= i < |cs| && cs[i].slot == x
  {
    ghost var pool := unvisited[..];
    cs := [];
    var station := 1;
    while station <= inst.n
      invariant 1 <= station <= inst.n + 1
      invariant CandidatesBefore(inst, pool, routes, cs, Slot(station, 0, 1))
    {
      if unvisited[station] {
        assert pool[station];
        var r := 0;
        while r < |routes|
          invariant 0 <= r <= |routes|
          invariant CandidatesBefore(inst, pool, routes, cs, Slot(station, r, 1))
        {
          cs := CollectPositions(inst, pool, routes, station, r, cs);
          r := r + 1;
        }
        AdvanceCandidates(inst, pool, routes, cs, Slot(station, r, 1), Slot(station + 1, 0, 1));
      } else {
        AdvanceCandidates(inst, pool, routes, cs, Slot(station, 0, 1), Slot(station + 1, 0, 1));
      }
      station := station + 1;
    }
    assert forall x :: Insertion(inst, pool, routes, x) ==> Before(x, Slot(station, 0, 1));
    assert pool == unvisited[..];
  }

  /** The least delta of a non-empty candidate list (the front after sorting). */
  function MinDelta(cs: seq<Candidate>): (m: int)
    requires |cs| > 0
    ensures forall i :: 0 <= i < |cs| ==> m <= cs[i].delta
    ensures exists i :: 0 <= i < |cs| && cs[i].delta == m
  {
    if |cs| == 1 then cs[0].delta
    else
      var rest := MinDelta(cs[1..]);
      assert forall i :: 1 <= i < |cs| ==> cs[i] == cs[1..][i - 1];
      if cs[0].delta <= rest then cs[0].delta else rest
  }

  /** The greatest delta of a non-empty candidate list (the back after sorting). */
  function MaxDelta(cs: seq<Candidate>): (m: int)
    requires |cs| > 0
    ensures forall i :: 0 <= i < |cs| ==> cs[i].delta <= m
    ensures exists i :: 0 <= i < |cs| && cs[i].delta == m
  {
    if |cs| == 1 then cs[0].delta
    else
      var rest := MaxDelta(cs[1..]);
      assert forall i :: 1 <= i < |cs| ==> cs[i] == cs[1..][i - 1];
      if cs[0].delta >= rest then cs[0].delta else rest
  }

  /** The restricted candidate list: the candidates whose delta is at most the
      threshold, in list order. */
  function Rcl(cs: seq<Candidate>, threshold: real): seq<Candidate> {
    if cs == [] then []
    else Rcl(cs[..|cs| - 1], threshold) + (if cs[|cs| - 1].delta as real <= threshold then [cs[|cs| - 1]] else [])
  }

  /** The restricted list holds exactly the candidates within the threshold. */
  lemma {:induction false} RclMembers(cs: seq<Candidate>, threshold: real)
    ensures forall c :: c in Rcl(cs, threshold) <==> c in cs && c.delta as real <= threshold
  {
    if cs != [] {
      var init := cs[..|cs| - 1];
      RclMembers(init, threshold);
      assert cs == init + [cs[|cs| - 1]];
    }
  }

  /** The filtering loop of GRASP over the candidate list. */
  method Restrict(cs: seq<Candidate>, threshold: real) returns (rcl: seq<Candidate>)
    ensures rcl == Rcl(cs, threshold)
  {
    rcl := [];
    var i := 0;
    while i < |cs|
      invariant 0 <= i <= |cs|
      invariant rcl == Rcl(cs[..i], threshold)
    {
      assert cs[..i + 1][..i] == cs[..i];
      if cs[i].delta as real <= threshold {
        rcl := rcl + [cs[i]];
      }
      i := i + 1;
    }
    assert cs[..i] == cs;
  }

  /** The GRASP threshold min + alpha * (max - min). */
  function Window(lo: int, hi: int, alpha: real): real {
    lo as real + alpha * ((hi - lo) as real)
  }

  lemma WindowAtLeastLow(lo: int, hi: int, alpha: real)
    requires lo <= hi && alpha >= 0.0
    ensures lo as real <= Window(lo, hi, alpha)
  {
    var spread := (hi - lo) as real;
    assert alpha * spread >= 0.0;
  }

  /** The threshold of a non-empty candidate list. */
  function Threshold(cs: seq<Candidate>, alpha: real): (t: real)
    requires |cs| > 0 && alpha >= 0.0
    ensures MinDelta(cs) as real <= t
  {
    WindowAtLeastLow(MinDelta(cs), MaxDelta(cs), alpha);
    Window(MinDelta(cs), MaxDelta(cs), alpha)
  }

  /** With alpha >= 0 the threshold admits the least delta, so the restricted
      list is never empty. */
  lemma RclNonEmpty(cs: seq<Candidate>, alpha: real)
    requires |cs| > 0 && alpha >= 0.0
    ensures |Rcl(cs, Threshold(cs, alpha))| > 0
  {
    var t := Threshold(cs, alpha);
    var i :| 0 <= i < |cs| && cs[i].delta == MinDelta(cs);
    RclMembers(cs, t);
    assert cs[i] in Rcl(cs, t);
  }

  /** The random pick of GRASP: a draw indexes the restricted list. */
  method PickCandidate(cs: seq<Candidate>, rng: Rng, alpha: real) returns (chosen: Candidate)
    requires |cs| > 0 && alpha >= 0.0
    modifies rng
    ensures |Rcl(cs, Threshold(cs, alpha))| > 0
    ensures chosen == Rcl(cs, Threshold(cs, alpha))[rng.stream(old(rng.pos)) % |Rcl(cs, Threshold(cs, alpha))|]
    ensures chosen in cs && MinDelta(cs) <= chosen.delta && chosen.delta as real <= Threshold(cs, alpha)
    ensures rng.pos == old(rng.pos) + 1
  {
    var threshold := Threshold(cs, alpha);
    var rcl := Restrict(cs, threshold);
    RclNonEmpty(cs, alpha);
    var k := rng.Next(0, |rcl| - 1);
    chosen := rcl[k];
    RclMembers(cs, threshold);
    assert chosen in rcl;
  }

  /** lo and hi are feasible insertions of least and greatest delta. */
  ghost predicate Extremes(inst: Instance, pool: seq<bool>, routes: seq<Route>, lo: Slot, hi: Slot)
    requires inst.Valid() && AllInRange(inst, routes)
  {
    Insertion(inst, pool, routes, lo) && Insertion(inst, pool, routes, hi) &&
    forall x :: Insertion(inst, pool, routes, x) ==>
      Delta(inst, pool, routes, lo) <= Delta(inst, pool, routes, x) <= Delta(inst, pool, routes, hi)
  }

  /** A delta inside the GRASP window [min, min + alpha * (max - min)] spanned by lo and hi. */
  ghost predicate WithinThreshold(inst: Instance, pool: seq<bool>, routes: seq<Route>, lo: Slot, hi: Slot,
                                  alpha: real, d: int)
    requires inst.Valid() && AllInRange(inst, routes)
    requires Insertion(inst, pool, routes, lo) && Insertion(inst, pool, routes, hi)
  {
    var dlo := Delta(inst, pool, routes, lo);
    var dhi := Delta(inst, pool, routes, hi);
    dlo <= d && d as real <= Window(dlo, dhi, alpha)
  }

  /** One GRASP choice: collect every feasible insertion, keep those whose
      delta is at most min + alpha * (max - min), and pick one of them by a
      draw. None exactly when there is no feasible insertion. */
  method GraspChoice(inst: Instance, unvisited: array<bool>, routes: seq<Route>, rng: Rng, alpha: real)
      returns (c: Choice)
    requires inst.Valid() && unvisited.Length == inst.n + 1 && Shaped(inst, routes) && alpha >= 0.0
    modifies rng
    ensures c.NoChoice? <==> forall x :: !Insertion(inst, unvisited[..], routes, x)
    ensures c.Choice? ==>
      Insertion(inst, unvisited[..], routes, c.slot) && c.delta == Delta(inst, unvisited[..], routes, c.slot)
    ensures c.Choice? ==> exists lo, hi ::
      Extremes(inst, unvisited[..], routes, lo, hi) && WithinThreshold(inst, unvisited[..], routes, lo, hi, alpha, c.delta)
    ensures rng.pos == old(rng.pos) + (if c.Choice? then 1 else 0)
  {
    ghost var pool := unvisited[..];
    var cs := CollectCandidates(inst, unvisited, routes);
    assert pool == unvisited[..];
    if |cs| == 0 {
      assert forall x :: !Insertion(inst, pool, routes, x);
      return NoChoice;
    }
    var chosen := PickCandidate(cs, rng, alpha);
    c := Choice(chosen.slot, chosen.delta);
    assert pool == unvisited[..];
    ChoiceWithinThreshold(inst, pool, routes, cs, alpha, chosen);
  }

  /** The chosen candidate read back in terms of all feasible insertions. */
  lemma ChoiceWithinThreshold(inst: Instance, pool: seq<bool>, routes: seq<Route>, cs: seq<Candidate>,
                              alpha: real, chosen: Candidate)
    requires inst.Valid() && AllInRange(inst, routes) && |cs| > 0 && alpha >= 0.0
    requires forall i :: 0 <= i < |cs| ==>
      Insertion(inst, pool, routes, cs[i].slot) && cs[i].delta == Delta(inst, pool, routes, cs[i].slot)
    requires forall x :: Insertion(inst, pool, routes, x) ==> exists i :: 0 <= i < |cs| && cs[i].slot == x
    requires chosen in cs && MinDelta(cs) <= chosen.delta && chosen.delta as real <= Threshold(cs, alpha)
    ensures Insertion(inst, pool, routes, chosen.slot) && chosen.delta == Delta(inst, pool, routes, chosen.slot)
    ensures exists lo, hi ::
      Extremes(inst, pool, routes, lo, hi) && WithinThreshold(inst, pool, routes, lo, hi, alpha, chosen.delta)
  {
    var i :| 0 <= i < |cs| && cs[i].delta == MinDelta(cs);
    var j :| 0 <= j < |cs| && cs[j].delta == MaxDelta(cs);
    var lo := cs[i].slot;
    var hi := cs[j].slot;
    forall x | Insertion(inst, pool, routes, x)
      ensures Delta(inst, pool, routes, lo) <= Delta(inst, pool, routes, x) <= Delta(inst, pool, routes, hi)
    {
      var t :| 0 <= t < |cs| && cs[t].slot == x;
    }
    assert Extremes(inst, pool, routes, lo, hi);
    assert WithinThreshold(inst, pool, routes, lo, hi, alpha, chosen.delta);
  }

  /** BuildInitial_GRASP: like GreedyBestInsertion, but each round picks a
      random member of the restricted candidate list. */
  method BuildInitialGrasp(inst: Instance, rng: Rng, alpha: real)
      returns (sol: Solution, ghost run: seq<Snapshot>, ghost passes: seq<Pass>)
    requires inst.Valid() && alpha >= 0.0
    modifies rng
    ensures InsertionRoutes(inst, sol.routes) && Shaped(inst, sol.routes)
    ensures inst.Q >= 0 ==> forall k :: 0 <= k < |sol.routes| ==> Feasible(inst, sol.routes[k])
    ensures InsertionStopped(inst, sol.routes)
    ensures inst.m >= 1 && inst.Q >= 0 && (forall v :: 1 <= v <= inst.n ==> Nodes(sol.routes)[v] == 1) ==>
      SolutionFeasible(inst, sol.routes)
    ensures sol.totalCost == SolutionCost(inst, sol.routes)
    ensures GraspRun(inst, alpha, run, passes) && run[0] == StartSnapshot(inst) && run[|run| - 1].routes == sol.routes
  {
    var unvisited, routes, remaining := StartBuild(inst);
    StartIsSnapshot(inst);
    var stop;
    ghost var trace;
    routes, stop, trace := GraspLoop(inst, unvisited, routes, remaining, rng, alpha);
    GraspTraceIsRun(inst, alpha, StartSnapshot(inst), trace, SnapshotOf(inst, routes));
    run, passes := TraceStates(trace, SnapshotOf(inst, routes)), TracePasses(trace);
    sol := Finish(inst, unvisited, routes, stop);
  }

  /** The loop of BuildInitialGrasp: GRASP passes until every station is
      placed or a pass places none. */
  method GraspLoop(inst: Instance, unvisited: array<bool>, routes0: seq<Route>, remaining0: int, rng: Rng, alpha: real)
      returns (routes: seq<Route>, stop: bool, ghost trace: Trace)
    requires inst.Valid() && unvisited.Length == inst.n + 1 && alpha >= 0.0
    requires InsertionRoutes(inst, routes0) && PoolMatches(inst, unvisited[..], Nodes(routes0))
    requires remaining0 == CountTrue(unvisited[..])
    modifies unvisited, rng
    ensures InsertionRoutes(inst, routes) && PoolMatches(inst, unvisited[..], Nodes(routes))
    ensures CountTrue(unvisited[..]) == 0 || PoolStopped(inst, unvisited[..], routes)
    ensures GraspTrace(inst, alpha, SnapshotOf(inst, routes0), trace, SnapshotOf(inst, routes))
  {
    routes := routes0;
    var remaining := remaining0;
    trace := Begin;
    stop := false;
    while remaining > 0 && !stop
      invariant InsertionRoutes(inst, routes)
      invariant PoolMatches(inst, unvisited[..], Nodes(routes))
      invariant remaining == CountTrue(unvisited[..])
      invariant stop ==> PoolStopped(inst, unvisited[..], routes)
      invariant GraspTrace(inst, alpha, SnapshotOf(inst, routes0), trace, SnapshotOf(inst, routes))
      decreases remaining, if stop then 0 else 1
    {
      var placed;
      routes, placed, trace := GraspStep(inst, unvisited, routes, rng, alpha, SnapshotOf(inst, routes0), trace);
      if placed {
        remaining := remaining - 1;
      } else {
        stop := true;
      }
    }
  }

  /** One pass of the GRASP loop: insert a station chosen from the restricted
      candidate list, else open a route with the nearest feasible station;
      placed is false when neither is possible. */
  method GraspStep(inst: Instance, unvisited: array<bool>, routes: seq<Route>, rng: Rng, alpha: real,
                   ghost start: Snapshot, ghost trace: Trace)
      returns (routes': seq<Route>, placed: bool, ghost trace': Trace)
    requires inst.Valid() && unvisited.Length == inst.n + 1 && alpha >= 0.0
    requires InsertionRoutes(inst, routes) && PoolMatches(inst, unvisited[..], Nodes(routes))
    modifies unvisited, rng
    ensures InsertionRoutes(inst, routes') && PoolMatches(inst, unvisited[..], Nodes(routes'))
    ensures placed ==> CountTrue(unvisited[..]) == CountTrue(old(unvisited[..])) - 1
    requires GraspTrace(inst, alpha, start, trace, SnapshotOf(inst, routes))
    ensures GraspTrace(inst, alpha, start, trace', SnapshotOf(inst, routes'))
    ensures placed ==> trace'.Then? && trace'.earlier == trace && trace'.from == SnapshotOf(inst, routes)
    ensures !placed ==> trace' == trace
    ensures !placed ==> routes' == routes && unvisited[..] == old(unvisited[..]) && PoolStopped(inst, unvisited[..], routes')
  {
    InsertionRoutesShaped(inst, routes);
    PoolIsUnplaced(inst, unvisited[..], routes);
    ghost var before := Snapshot(unvisited[..], routes);
    var c := GraspChoice(inst, unvisited, routes, rng, alpha);
    if c.Choice? {
      routes' := Place(inst, unvisited, routes, c.slot);
      placed, trace' := true, Then(trace, before, Inserted(c.slot));
      assert Inserts(inst, before, c.slot, Snapshot(unvisited[..], routes'));
      WindowEveryPair(inst, before.pool, routes, alpha, c.delta);
    } else {
      var seed;
      routes', seed := OpenOrStop(inst, unvisited, routes);
      placed := seed != -1;
      trace' := if placed then Then(trace, before, Seeded(seed)) else trace;
    }
    PoolIsUnplaced(inst, unvisited[..], routes');
  }
}
