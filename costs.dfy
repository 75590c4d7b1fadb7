/** Travel cost of a route and of a whole route set, with integer costs. */
module Costs {
  import opened Instance
  import opened Routes

  /** Sum of cost[u][v] over the consecutive pairs (u, v) of the route; 0 when the
      route has fewer than two nodes. */
  function RouteCost(inst: Instance, r: Route): (c: int)
    requires inst.Valid() && InRange(inst, r)
    ensures inst.NonNegativeCosts() ==> c >= 0
    decreases |r|
  {
    if |r| < 2 then 0
    else
      assert InRange(inst, r[..|r| - 1]);
      RouteCost(inst, r[..|r| - 1]) + inst.Travel(r[|r| - 2], r[|r| - 1])
  }

  /** Sum of the route costs. */
  function SolutionCost(inst: Instance, routes: seq<Route>): (c: int)
    requires inst.Valid() && AllInRange(inst, routes)
    ensures inst.NonNegativeCosts() ==> c >= 0
    decreases |routes|
  {
    if routes == [] then 0
    else
      assert AllInRange(inst, routes[..|routes| - 1]);
      SolutionCost(inst, routes[..|routes| - 1]) + RouteCost(inst, routes[|routes| - 1])
  }

  /** The accumulating loop of RoutesCost. */
  method ComputeRouteCost(inst: Instance, r: Route) returns (c: int)
    requires inst.Valid() && InRange(inst, r)
    ensures c == RouteCost(inst, r)
  {
    c := 0;
    if |r| < 2 {
      return;
    }
    var i := 0;
    while i < |r| - 1
      invariant 0 <= i <= |r| - 1
      invariant c == RouteCost(inst, r[..i + 1])
    {
      assert r[..i + 2][..i + 1] == r[..i + 1];
      c := c + inst.Travel(r[i], r[i + 1]);
      i := i + 1;
    }
    assert r[..i + 1] == r;
  }

  /** The accumulating loop of SolutionCost. */
  method ComputeSolutionCost(inst: Instance, routes: seq<Route>) returns (c: int)
    requires inst.Valid() && AllInRange(inst, routes)
    ensures c == SolutionCost(inst, routes)
  {
    c := 0;
    var i := 0;
    while i < |routes|
      invariant 0 <= i <= |routes|
      invariant c == SolutionCost(inst, routes[..i])
    {
      assert routes[..i + 1][..i] == routes[..i];
      var rc := ComputeRouteCost(inst, routes[i]);
      c := c + rc;
      i := i + 1;
    }
    assert routes[..i] == routes;
  }

  /** Cost is additive along a path: joining two routes adds the cost of the
      connecting leg. */
  lemma {:induction false} RouteCostAppend(inst: Instance, a: Route, b: Route)
    requires inst.Valid() && InRange(inst, a) && InRange(inst, b) && |a| >= 1 && |b| >= 1
    ensures InRange(inst, a + b)
    ensures RouteCost(inst, a + b) == RouteCost(inst, a) + inst.Travel(a[|a| - 1], b[0]) + RouteCost(inst, b)
  {
    var ab := a + b;
    assert InRange(inst, ab);
    if |b| == 1 {
      assert ab[..|ab| - 1] == a;
    } else {
      var b' := b[..|b| - 1];
      assert ab[..|ab| - 1] == a + b';
      assert InRange(inst, b');
      RouteCostAppend(inst, a, b');
      assert b'[0] == b[0];
    }
  }

  /** Replacing one route changes the total by exactly the difference of the two
      route costs: an incremental update agrees with full recomputation. */
  lemma {:induction false} SolutionCostUpdate(inst: Instance, routes: seq<Route>, k: int, r: Route)
    requires inst.Valid() && AllInRange(inst, routes) && InRange(inst, r) && 0 <= k < |routes|
    ensures AllInRange(inst, routes[k := r])
    ensures SolutionCost(inst, routes[k := r]) == SolutionCost(inst, routes) - RouteCost(inst, routes[k]) + RouteCost(inst, r)
  {
    var last := |routes| - 1;
    var rs := routes[k := r];
    assert AllInRange(inst, rs);
    if k == last {
      assert rs[..last] == routes[..last];
    } else {
      assert rs[..last] == routes[..last][k := r];
      assert AllInRange(inst, routes[..last]);
      SolutionCostUpdate(inst, routes[..last], k, r);
    }
  }

  /** With non-negative travel costs no single route costs more than the whole set. */
  lemma {:induction false} RouteCostAtMostSolutionCost(inst: Instance, routes: seq<Route>, k: int)
    requires inst.Valid() && inst.NonNegativeCosts() && AllInRange(inst, routes) && 0 <= k < |routes|
    ensures RouteCost(inst, routes[k]) <= SolutionCost(inst, routes)
  {
    var last := |routes| - 1;
    assert AllInRange(inst, routes[..last]);
    if k < last {
      RouteCostAtMostSolutionCost(inst, routes[..last], k);
      assert routes[..last][k] == routes[k];
    }
  }

  /** With non-negative travel costs two different routes together cost no
      more than the whole set. */
  lemma {:induction false} TwoRouteCostsAtMostSolutionCost(inst: Instance, routes: seq<Route>, r: int, k: int)
    requires inst.Valid() && inst.NonNegativeCosts() && AllInRange(inst, routes)
    requires 0 <= r < |routes| && 0 <= k < |routes| && r != k
    ensures RouteCost(inst, routes[r]) + RouteCost(inst, routes[k]) <= SolutionCost(inst, routes)
  {
    var last := |routes| - 1;
    var init := routes[..last];
    assert AllInRange(inst, init);
    if r == last {
      RouteCostAtMostSolutionCost(inst, init, k);
      assert init[k] == routes[k];
    } else if k == last {
      RouteCostAtMostSolutionCost(inst, init, r);
      assert init[r] == routes[r];
    } else {
      TwoRouteCostsAtMostSolutionCost(inst, init, r, k);
      assert init[r] == routes[r] && init[k] == routes[k];
    }
  }
}
