/** The rng-free nearest-feasible builder, and the bookkeeping of the pool of
    unvisited stations that all three builders share. */
module Constructive {
  import opened Instance
  import opened Routes
  import opened Costs
  import opened Feasibility
  import opened Solutions

  /** Number of flags set in s: with unvisited[0] cleared, the number of
      stations still waiting for a route. */
  function CountTrue(s: seq<bool>): (c: nat)
    ensures c <= |s|
  {
    if s == [] then 0 else CountTrue(s[..|s| - 1]) + (if s[|s| - 1] then 1 else 0)
  }

  /** CountTrue counts the set flags: it is the size of the set of their indices. */
  lemma {:induction false} CountTrueIsSetSize(s: seq<bool>)
    ensures CountTrue(s) == |set i | 0 <= i < |s| && s[i]|
  {
    if s != [] {
      var last := |s| - 1;
      var prefix := s[..last];
      var earlier := set i | 0 <= i < |prefix| && prefix[i];
      var all := set i | 0 <= i < |s| && s[i];
      CountTrueIsSetSize(prefix);
      if s[last] {
        assert all == earlier + {last};
      } else {
        assert all == earlier;
      }
    }
  }

  /** Clearing one set flag lowers the count by exactly one. */
  lemma {:induction false} CountTrueClear(s: seq<bool>, i: int)
    requires 0 <= i < |s| && s[i]
    ensures CountTrue(s[i := false]) == CountTrue(s) - 1
  {
    var last := |s| - 1;
    if i < last {
      assert s[i := false][..last] == s[..last][i := false];
      CountTrueClear(s[..last], i);
    } else {
      assert s[i := false][..last] == s[..last];
    }
  }

  /** No flag is set exactly when the count is 0. */
  lemma {:induction false} CountTrueZero(s: seq<bool>)
    ensures CountTrue(s) == 0 <==> forall i :: 0 <= i < |s| ==> !s[i]
  {
    if s != [] {
      var last := |s| - 1;
      CountTrueZero(s[..last]);
      assert forall i :: 0 <= i < last ==> s[i] == s[..last][i];
    }
  }

  /** The initial pool: every flag but the depot's set. */
  lemma {:induction false} CountTrueInitial(s: seq<bool>)
    requires |s| >= 1 && !s[0] && forall i :: 1 <= i < |s| ==> s[i]
    ensures CountTrue(s) == |s| - 1
  {
    if |s| > 1 {
      CountTrueInitial(s[..|s| - 1]);
    }
  }

  /** A route of the builders: 0, then stations 1..n only, then 0. */
  predicate StationRoute(inst: Instance, r: Route) {
    |r| >= 2 && r[0] == 0 && r[|r| - 1] == 0 &&
    forall k :: 0 < k < |r| - 1 ==> inst.IsStation(r[k])
  }

  /** The pool flags agree with the routes built so far: a station is flagged
      unvisited exactly when no route holds it, and no route holds it twice. */
  predicate PoolMatches(inst: Instance, unvisited: seq<bool>, placed: multiset<int>) {
    inst.n >= 0 && |unvisited| == inst.n + 1 && !unvisited[0] &&
    forall v :: 1 <= v <= inst.n ==> placed[v] == (if unvisited[v] then 0 else 1)
  }

  /** The pool that matches a route set: the stations no route holds. */
  function Unplaced(inst: Instance, routes: seq<Route>): (pool: seq<bool>)
    requires inst.n >= 0
    ensures |pool| == inst.n + 1
  {
    seq(inst.n + 1, v => v != 0 && Nodes(routes)[v] == 0)
  }

  lemma PoolIsUnplaced(inst: Instance, unvisited: seq<bool>, routes: seq<Route>)
    requires PoolMatches(inst, unvisited, Nodes(routes))
    ensures unvisited == Unplaced(inst, routes)
  {
  }

  lemma StationRouteInRange(inst: Instance, r: Route)
    requires inst.n >= 0 && StationRoute(inst, r)
    ensures InRange(inst, r)
  {
  }

  /** A station that may extend the open route: unvisited, and the route closed
      right after it is feasible. */
  predicate Extends(inst: Instance, unvisited: seq<bool>, current: Route, v: int) {
    1 <= v <= inst.n && v < |unvisited| && unvisited[v] && Feasible(inst, current + [v, 0])
  }

  /** The scan over stations 1..n for the nearest feasible extension of the open
      route, from the node `from`; -1 when there is none. A later station wins
      only with a strictly smaller travel cost, so ties go to the lowest id. */
  method NearestFeasible(inst: Instance, unvisited: array<bool>, current: Route, from: int) returns (best: int)
    requires inst.Valid() && unvisited.Length == inst.n + 1 && inst.IsNode(from)
    ensures best == -1 <==> forall v :: 1 <= v <= inst.n ==> !Extends(inst, unvisited[..], current, v)
    ensures best != -1 ==> Extends(inst, unvisited[..], current, best)
    ensures best != -1 ==> forall v :: Extends(inst, unvisited[..], current, v) ==>
      inst.Travel(from, best) <= inst.Travel(from, v) && (v < best ==> inst.Travel(from, best) < inst.Travel(from, v))
  {
    ghost var pool := unvisited[..];
    assert |pool| == inst.n + 1;
    best := -1;
    var bestCost := 0;
    var station := 1;
    while station <= inst.n
      invariant 1 <= station <= inst.n + 1
      invariant best == -1 ==> forall v :: 1 <= v < station ==> !Extends(inst, pool, current, v)
      invariant best != -1 ==> 1 <= best < station && Extends(inst, pool, current, best) && bestCost == inst.Travel(from, best)
      invariant best != -1 ==> forall v :: 1 <= v < station && Extends(inst, pool, current, v) ==>
        bestCost <= inst.Travel(from, v) && (v < best ==> bestCost < inst.Travel(from, v))
    {
      assert pool[station] == unvisited[station];
      if unvisited[station] {
        var test := current + [station, 0];
        var info := CheckRouteFeasible(inst, test);
        if info.ok {
          var travel := inst.Travel(from, station);
          if best == -1 || travel < bestCost {
            best, bestCost := station, travel;
          }
        }
      }
      station := station + 1;
    }
    assert pool == unvisited[..];
    if best != -1 {
      assert !(forall v :: 1 <= v <= inst.n ==> !Extends(inst, pool, current, v)) by {
        assert Extends(inst, pool, current, best);
      }
    }
  }

  /** The pool once the stations of an open route are taken out of it. */
  function Taken(pool: seq<bool>, current: Route): (rest: seq<bool>)
    ensures |rest| == |pool|
  {
    seq(|pool|, v requires 0 <= v < |pool| => pool[v] && v !in current)
  }

  /** A non-empty sequence of node ids. */
  predicate NodeRoute(inst: Instance, r: Route) {
    |r| >= 1 && forall k :: 0 <= k < |r| ==> inst.IsNode(r[k])
  }

  /** The pick of NearestFeasible from the last node of the open route: a
      station that fits, of least travel cost, the lowest id on ties. */
  ghost predicate NearestPick(inst: Instance, pool: seq<bool>, current: Route, v: int)
    requires inst.Valid() && NodeRoute(inst, current)
  {
    var from := current[|current| - 1];
    && Extends(inst, pool, current, v)
    && forall w :: Extends(inst, pool, current, w) ==>
         inst.Travel(from, v) <= inst.Travel(from, w) && (w < v ==> inst.Travel(from, v) < inst.Travel(from, w))
  }

  /** The open route grew from [0] by nearest picks, each from the pool minus
      the stations taken before it. */
  ghost predicate NearestChain(inst: Instance, pool: seq<bool>, current: Route)
    requires inst.Valid()
    decreases |current|
  {
    && NodeRoute(inst, current)
    && if |current| == 1 then current == [0] else
         var prev := current[..|current| - 1];
         NearestChain(inst, pool, prev) && NearestPick(inst, Taken(pool, prev), prev, current[|current| - 1])
  }

  /** A closed route as GreedyNearestFeasible builds it from a pool: nearest
      picks from [0] until no station fits, then back to the depot. */
  ghost predicate NearestBuilt(inst: Instance, pool: seq<bool>, r: Route)
    requires inst.Valid()
  {
    && |r| >= 2 && r[|r| - 1] == 0
    && var open := r[..|r| - 1];
       NearestChain(inst, pool, open) && forall v :: !Extends(inst, Taken(pool, open), open, v)
  }

  /** Taking one more nearest pick extends the chain and clears its flag. */
  lemma ChainStep(inst: Instance, pool: seq<bool>, current: Route, best: int)
    requires inst.Valid() && NearestChain(inst, pool, current)
    requires NearestPick(inst, Taken(pool, current), current, best)
    ensures NearestChain(inst, pool, current + [best])
    ensures Taken(pool, current + [best]) == Taken(pool, current)[best := false]
  {
    assert (current + [best])[..|current|] == current;
    assert forall k :: 0 <= k < |current| ==> (current + [best])[k] == current[k];
  }

  /** The open route of the nearest-feasible builders: the depot, then stations,
      with the route closed at the depot feasible once it holds a station. */
  predicate OpenRoute(inst: Instance, current: Route) {
    |current| >= 1 && current[0] == 0 &&
    (forall k :: 0 < k < |current| ==> inst.IsStation(current[k])) &&
    (|current| > 1 ==> Feasible(inst, current + [0]))
  }

  /** The inner loop of GreedyNearestFeasible: extend one route from the depot by
      the nearest feasible station until none fits, taking each one out of the
      pool. The result is the open route; when it holds no station, no unvisited
      station fits a route of its own. */
  method ExtendRoute(inst: Instance, unvisited: array<bool>, ghost placed: multiset<int>, remaining0: int)
      returns (current: Route, remaining: int)
    requires inst.Valid()
    requires PoolMatches(inst, unvisited[..], placed) && remaining0 == CountTrue(unvisited[..])
    modifies unvisited
    ensures OpenRoute(inst, current)
    ensures PoolMatches(inst, unvisited[..], placed + multiset(current))
    ensures remaining == CountTrue(unvisited[..]) && remaining == remaining0 - (|current| - 1)
    ensures current == [0] ==> forall v :: 1 <= v <= inst.n && unvisited[v] ==> !Feasible(inst, [0, v, 0])
    ensures NearestChain(inst, old(unvisited[..]), current) && unvisited[..] == Taken(old(unvisited[..]), current)
    ensures forall v :: !Extends(inst, unvisited[..], current, v)
  {
    ghost var pool0 := unvisited[..];
    assert Taken(pool0, [0]) == pool0;
    current := [0];
    remaining := remaining0;
    var currentStation := 0;
    while true
      invariant OpenRoute(inst, current) && current[|current| - 1] == currentStation
      invariant inst.IsNode(currentStation)
      invariant PoolMatches(inst, unvisited[..], placed + multiset(current))
      invariant remaining == CountTrue(unvisited[..]) && remaining == remaining0 - (|current| - 1)
      invariant NearestChain(inst, pool0, current) && unvisited[..] == Taken(pool0, current)
      decreases remaining
    {
      var best := NearestFeasible(inst, unvisited, current, currentStation);
      if best == -1 {
        if current == [0] {
          forall v | 1 <= v <= inst.n && unvisited[v] ensures !Feasible(inst, [0, v, 0]) {
            assert !Extends(inst, unvisited[..], current, v);
            assert current + [v, 0] == [0, v, 0];
          }
        }
        return;
      }
      ghost var pool := unvisited[..];
      assert NearestPick(inst, Taken(pool0, current), current, best);
      ChainStep(inst, pool0, current, best);
      current := TakeStation(inst, unvisited, placed, current, best);
      remaining := remaining - 1;
      currentStation := best;
    }
  }

  /** One step of ExtendRoute: the chosen station joins the open route and
      leaves the pool. */
  method TakeStation(inst: Instance, unvisited: array<bool>, ghost placed: multiset<int>, current: Route, best: int)
      returns (current': Route)
    requires inst.Valid() && OpenRoute(inst, current)
    requires PoolMatches(inst, unvisited[..], placed + multiset(current))
    requires Extends(inst, unvisited[..], current, best)
    modifies unvisited
    ensures current' == current + [best] && OpenRoute(inst, current')
    ensures PoolMatches(inst, unvisited[..], placed + multiset(current'))
    ensures CountTrue(unvisited[..]) == CountTrue(old(unvisited[..])) - 1
    ensures unvisited[..] == old(unvisited[..])[best := false]
  {
    ghost var pool := unvisited[..];
    ghost var before := placed + multiset(current);
    assert current + [best] + [0] == current + [best, 0];
    CountTrueClear(pool, best);
    current' := current + [best];
    unvisited[best] := false;
    assert unvisited[..] == pool[best := false];
    assert placed + multiset(current') == before + multiset{best};
    forall v | 1 <= v <= inst.n
      ensures (before + multiset{best})[v] == (if unvisited[v] then 0 else 1)
    {
      if v != best {
        assert (before + multiset{best})[v] == before[v];
      }
    }
  }

  /** Why a builder stopped: every station placed, the vehicles used up, or no
      unplaced station fits even a fresh route of its own. */
  predicate Stopped(inst: Instance, routes: seq<Route>) {
    (forall v :: 1 <= v <= inst.n ==> Nodes(routes)[v] == 1) ||
    |routes| >= inst.m ||
    forall v :: 1 <= v <= inst.n && Nodes(routes)[v] == 0 ==> !Feasible(inst, [0, v, 0])
  }

  /** Routes of one builder: within the vehicle budget, each one a feasible
      0 ... 0 route over stations with at least one station, no station twice. */
  predicate NearestRoutes(inst: Instance, routes: seq<Route>) {
    && |routes| <= (if inst.m < 0 then 0 else inst.m)
    && (forall k :: 0 <= k < |routes| ==> StationRoute(inst, routes[k]) && |routes[k]| >= 3 && Feasible(inst, routes[k]))
    && (forall v :: 1 <= v <= inst.n ==> Nodes(routes)[v] <= 1)
  }

  lemma NearestRoutesInRange(inst: Instance, routes: seq<Route>)
    requires inst.n >= 0 && NearestRoutes(inst, routes)
    ensures AllInRange(inst, routes)
  {
    forall k | 0 <= k < |routes| ensures InRange(inst, routes[k]) {
      StationRouteInRange(inst, routes[k]);
    }
  }

  /** Everything placed means a solution that passes CheckSolutionFeasible. */
  lemma AllPlacedIsFeasible(inst: Instance, routes: seq<Route>)
    requires inst.m >= 0 && NearestRoutes(inst, routes)
    requires forall v :: 1 <= v <= inst.n ==> Nodes(routes)[v] == 1
    ensures SolutionFeasible(inst, routes)
  {
  }

  /** Appending a closed route with a station keeps every route a feasible
      0 ... 0 route over stations. */
  lemma EveryRouteAppend(inst: Instance, routes: seq<Route>, closed: Route)
    requires forall k :: 0 <= k < |routes| ==> StationRoute(inst, routes[k]) && |routes[k]| >= 3 && Feasible(inst, routes[k])
    requires StationRoute(inst, closed) && |closed| >= 3 && Feasible(inst, closed)
    ensures forall k :: 0 <= k < |routes| + 1 ==>
      StationRoute(inst, (routes + [closed])[k]) && |(routes + [closed])[k]| >= 3 && Feasible(inst, (routes + [closed])[k])
  {
    forall k | 0 <= k < |routes| + 1
      ensures StationRoute(inst, (routes + [closed])[k]) && |(routes + [closed])[k]| >= 3 && Feasible(inst, (routes + [closed])[k])
    {
      if k < |routes| {
        assert (routes + [closed])[k] == routes[k];
      }
    }
  }

  /** Closing a non-empty open route at the depot and appending it keeps the
      route set a valid partial result and the pool in step with it. */
  lemma CloseRoute(inst: Instance, unvisited: seq<bool>, routes: seq<Route>, current: Route)
    requires NearestRoutes(inst, routes) && |routes| < inst.m
    requires OpenRoute(inst, current) && |current| > 1
    requires PoolMatches(inst, unvisited, Nodes(routes) + multiset(current))
    ensures NearestRoutes(inst, routes + [current + [0]])
    ensures PoolMatches(inst, unvisited, Nodes(routes + [current + [0]]))
  {
    var closed := current + [0];
    var routes' := routes + [closed];
    assert StationRoute(inst, closed) by {
      forall k | 0 < k < |closed| - 1 ensures inst.IsStation(closed[k]) {
        assert closed[k] == current[k];
      }
    }
    EveryRouteAppend(inst, routes, closed);
    ClosePool(inst, unvisited, routes, current);
    assert |routes'| <= inst.m;
    assert NearestRoutes(inst, routes');
  }

  /** Closing the open route keeps the pool in step with the routes, and so no
      station twice. */
  lemma ClosePool(inst: Instance, unvisited: seq<bool>, routes: seq<Route>, current: Route)
    requires PoolMatches(inst, unvisited, Nodes(routes) + multiset(current))
    ensures PoolMatches(inst, unvisited, Nodes(routes + [current + [0]]))
    ensures forall v :: 1 <= v <= inst.n ==> Nodes(routes + [current + [0]])[v] <= 1
  {
    var closed := current + [0];
    NodesAppend(routes, closed);
    ghost var placed := Nodes(routes) + multiset(current);
    assert multiset(closed) == multiset(current) + multiset{0};
    assert Nodes(routes + [closed]) == placed + multiset{0};
    forall v | 1 <= v <= inst.n ensures Nodes(routes + [closed])[v] == placed[v] <= 1 {
      assert placed[v] == (if unvisited[v] then 0 else 1);
    }
  }

  /** Each route of the list is nearest-built from the pool its predecessors
      leave (NearestBuiltEach states it index by index). */
  ghost predicate NearestBuiltAll(inst: Instance, routes: seq<Route>)
    requires inst.Valid()
    decreases |routes|
  {
    |routes| == 0 ||
    var earlier := routes[..|routes| - 1];
    NearestBuiltAll(inst, earlier) && NearestBuilt(inst, Unplaced(inst, earlier), routes[|routes| - 1])
  }

  lemma {:induction false} NearestBuiltEach(inst: Instance, routes: seq<Route>)
    requires inst.Valid() && NearestBuiltAll(inst, routes)
    ensures forall k :: 0 <= k < |routes| ==> NearestBuilt(inst, Unplaced(inst, routes[..k]), routes[k])
    decreases |routes|
  {
    if |routes| > 0 {
      var earlier := routes[..|routes| - 1];
      NearestBuiltEach(inst, earlier);
      forall k | 0 <= k < |routes| ensures NearestBuilt(inst, Unplaced(inst, routes[..k]), routes[k]) {
        if k < |earlier| {
          assert routes[..k] == earlier[..k] && routes[k] == earlier[k];
        }
      }
    }
  }

  /** One round of GreedyNearestFeasible: build a route by ExtendRoute and keep
      it when it holds a station; added is false when it holds none, and then
      no unvisited station fits a route of its own. */
  method NextRoute(inst: Instance, unvisited: array<bool>, routes: seq<Route>, remaining: int)
      returns (routes': seq<Route>, remaining': int, added: bool)
    requires inst.Valid() && NearestRoutes(inst, routes) && |routes| < inst.m
    requires PoolMatches(inst, unvisited[..], Nodes(routes)) && remaining == CountTrue(unvisited[..])
    requires NearestBuiltAll(inst, routes)
    modifies unvisited
    ensures NearestRoutes(inst, routes') && PoolMatches(inst, unvisited[..], Nodes(routes'))
    ensures remaining' == CountTrue(unvisited[..])
    ensures NearestBuiltAll(inst, routes')
    ensures added ==> |routes'| == |routes| + 1 && routes'[..|routes|] == routes && remaining' < remaining
    ensures !added ==> routes' == routes && forall v :: 1 <= v <= inst.n && unvisited[v] ==> !Feasible(inst, [0, v, 0])
    ensures !added ==> Stopped(inst, routes')
  {
    PoolIsUnplaced(inst, unvisited[..], routes);
    ghost var pool := unvisited[..];
    var current;
    current, remaining' := ExtendRoute(inst, unvisited, Nodes(routes), remaining);
    var closed := current + [0];
    added := |closed| > 2;
    if added {
      CloseRoute(inst, unvisited[..], routes, current);
      routes' := routes + [closed];
      assert routes'[..|routes|] == routes && closed[..|current|] == current;
    } else {
      assert current == [0];
      routes' := routes;
      RoundsStopped(inst, unvisited[..], routes');
    }
  }

  /** The greedy nearest-feasible builder: routes are opened one at a time while
      stations remain and vehicles are left; each route is extended by the
      nearest feasible station until none fits, then closed at the depot. */
  method GreedyNearestFeasible(inst: Instance) returns (sol: Solution)
    requires inst.Valid()
    ensures NearestRoutes(inst, sol.routes)
    ensures Stopped(inst, sol.routes)
    ensures inst.m >= 0 && (forall v :: 1 <= v <= inst.n ==> Nodes(sol.routes)[v] == 1) ==>
      SolutionFeasible(inst, sol.routes)
    ensures AllInRange(inst, sol.routes) && sol.totalCost == SolutionCost(inst, sol.routes)
    ensures forall k :: 0 <= k < |sol.routes| ==> NearestBuilt(inst, Unplaced(inst, sol.routes[..k]), sol.routes[k])
  {
    var unvisited := new bool[inst.n + 1](i => i != 0);
    var routes := NearestRounds(inst, unvisited);
    NearestRoutesInRange(inst, routes);
    NearestBuiltEach(inst, routes);
    var cost := ComputeSolutionCost(inst, routes);
    sol := new Solution(routes, cost);
  }

  /** The route loop of GreedyNearestFeasible, from a full pool. */
  method NearestRounds(inst: Instance, unvisited: array<bool>) returns (routes: seq<Route>)
    requires inst.Valid() && unvisited[..] == seq(inst.n + 1, i => i != 0)
    modifies unvisited
    ensures NearestRoutes(inst, routes) && Stopped(inst, routes) && NearestBuiltAll(inst, routes)
  {
    var remaining := inst.n;
    CountTrueInitial(unvisited[..]);
    routes := [];
    while remaining > 0 && |routes| < inst.m
      invariant NearestRoutes(inst, routes)
      invariant PoolMatches(inst, unvisited[..], Nodes(routes))
      invariant remaining == CountTrue(unvisited[..])
      invariant NearestBuiltAll(inst, routes)
      decreases remaining
    {
      var added;
      routes, remaining, added := NextRoute(inst, unvisited, routes, remaining);
      if !added {
        break;
      }
    }
    if remaining == 0 || |routes| >= inst.m {
      RoundsStopped(inst, unvisited[..], routes);
    }
  }

  /** The three ways out of the route loop, read as properties of the routes. */
  lemma RoundsStopped(inst: Instance, pool: seq<bool>, routes: seq<Route>)
    requires inst.Valid() && PoolMatches(inst, pool, Nodes(routes))
    requires CountTrue(pool) == 0 || |routes| >= inst.m ||
             forall v :: 1 <= v <= inst.n && pool[v] ==> !Feasible(inst, [0, v, 0])
    ensures Stopped(inst, routes)
  {
    if CountTrue(pool) == 0 {
      CountTrueZero(pool);
    }
  }
}
