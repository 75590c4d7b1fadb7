/** The four neighbourhood searches shared by the step-wise local search and the
    partitioned VND: 2-opt, or-opt-2, relocate and swap. Each scans its moves in
    the source's loop order, tries a move in place on the solution, keeps the
    first improving one and otherwise undoes it exactly. Every search is proved
    against a predicate naming the improving moves on the routes it started from. */
module Moves {
  import opened Instance
  import opened Routes
  import opened Costs
  import opened Feasibility
  import opened Solutions

  /** The routes a search may touch: all of them, or a target set (the targeted
      variants skip every index outside it and every index out of range). */
  datatype Scope = AllRoutes | Only(targets: set<int>)

  predicate InScope(scope: Scope, r: int) {
    scope.AllRoutes? || r in scope.targets
  }

  /** Every route passes the capacity test. */
  predicate AllFeasible(inst: Instance, routes: seq<Route>) {
    forall k :: 0 <= k < |routes| ==> Feasible(inst, routes[k])
  }

  /** (a, b, c) comes strictly before (x, y, z) in the order of three nested loops. */
  predicate Lex3(a: int, b: int, c: int, x: int, y: int, z: int) {
    a < x || (a == x && (b < y || (b == y && c < z)))
  }

  /** (a, b, c, d) comes strictly before (w, x, y, z) in the order of four nested loops. */
  predicate Lex4(a: int, b: int, c: int, d: int, w: int, x: int, y: int, z: int) {
    a < w || (a == w && Lex3(b, c, d, x, y, z))
  }

  lemma ReplaceInRange(inst: Instance, routes: seq<Route>, k: int, r: Route)
    requires AllInRange(inst, routes) && 0 <= k < |routes| && InRange(inst, r)
    ensures AllInRange(inst, routes[k := r])
  {
  }

  lemma UpdateTwice(routes: seq<Route>, k: int, a: Route, b: Route)
    requires 0 <= k < |routes|
    ensures routes[k := a][k := b] == routes[k := b]
  {
  }

  lemma UpdateSame(routes: seq<Route>, k: int)
    requires 0 <= k < |routes|
    ensures routes[k := routes[k]] == routes
  {
  }

  lemma ReplaceFeasible(inst: Instance, routes: seq<Route>, k: int, r: Route)
    requires AllFeasible(inst, routes) && 0 <= k < |routes| && Feasible(inst, r)
    ensures AllFeasible(inst, routes[k := r])
  {
  }

  // ---------------------------------------------------------------------------
  // 2-opt: reverse the segment [i..j] of one route.

  function TwoOptApply(routes: seq<Route>, r: int, i: int, j: int): seq<Route>
    requires 0 <= r < |routes| && 0 <= i <= j < |routes[r]|
  {
    routes[r := ReverseSegment(routes[r], i, j)]
  }

  /** Reversing [i..j] in route r of at least four nodes, 1 <= i < j <= size - 2,
      gives a feasible route strictly cheaper than route r. */
  predicate TwoOptImproves(inst: Instance, routes: seq<Route>, r: int, i: int, j: int)
    requires inst.Valid() && AllInRange(inst, routes)
  {
    && 0 <= r < |routes| && |routes[r]| >= 4
    && 1 <= i < j < |routes[r]| - 1
    && Feasible(inst, ReverseSegment(routes[r], i, j))
    && RouteCost(inst, ReverseSegment(routes[r], i, j)) < RouteCost(inst, routes[r])
  }

  /** No improving 2-opt move in scope comes before (r, i, j) in scan order. */
  ghost predicate NoTwoOptBefore(inst: Instance, routes: seq<Route>, scope: Scope, r: int, i: int, j: int)
    requires inst.Valid() && AllInRange(inst, routes)
  {
    forall r', i', j' {:trigger TwoOptImproves(inst, routes, r', i', j')} ::
      InScope(scope, r') && Lex3(r', i', j', r, i, j) ==> !TwoOptImproves(inst, routes, r', i', j')
  }

  /** No route in scope has an improving 2-opt move. */
  ghost predicate TwoOptStuck(inst: Instance, routes: seq<Route>, scope: Scope)
    requires inst.Valid() && AllInRange(inst, routes)
  {
    forall r, i, j {:trigger TwoOptImproves(inst, routes, r, i, j)} ::
      InScope(scope, r) ==> !TwoOptImproves(inst, routes, r, i, j)
  }

  /** routes1 is routes0 after the first improving 2-opt move in scope, in route r. */
  ghost predicate TwoOptTaken(inst: Instance, routes0: seq<Route>, scope: Scope, r: int, routes1: seq<Route>)
    requires inst.Valid() && AllInRange(inst, routes0)
  {
    exists i, j :: TwoOptImproves(inst, routes0, r, i, j) && InScope(scope, r)
      && NoTwoOptBefore(inst, routes0, scope, r, i, j) && routes1 == TwoOptApply(routes0, r, i, j)
  }

  /** An improving 2-opt move keeps the nodes, the route ends and feasibility of
      the route set, and lowers its total cost. */
  lemma TwoOptEffect(inst: Instance, routes: seq<Route>, r: int, i: int, j: int)
    requires inst.Valid() && AllInRange(inst, routes) && TwoOptImproves(inst, routes, r, i, j)
    ensures AllInRange(inst, TwoOptApply(routes, r, i, j))
    ensures SolutionCost(inst, TwoOptApply(routes, r, i, j)) < SolutionCost(inst, routes)
    ensures Nodes(TwoOptApply(routes, r, i, j)) == Nodes(routes)
    ensures Shaped(inst, routes) ==> SameEnds(routes, TwoOptApply(routes, r, i, j))
    ensures AllFeasible(inst, routes) ==> AllFeasible(inst, TwoOptApply(routes, r, i, j))
  {
    var route' := ReverseSegment(routes[r], i, j);
    ReverseSegmentNodes(routes[r], i, j);
    assert route'[0] == routes[r][0] && route'[|route'| - 1] == routes[r][|routes[r]| - 1];
    ReplaceImproving(inst, routes, r, route');
  }

  /** Replacing route k by a route with the same first and last node keeps the ends. */
  lemma ReplaceKeepsEnds(routes: seq<Route>, k: int, r: Route)
    requires 0 <= k < |routes| && forall q :: 0 <= q < |routes| ==> |routes[q]| >= 1
    requires |r| >= 1 && r[0] == routes[k][0] && r[|r| - 1] == routes[k][|routes[k]| - 1]
    ensures SameEnds(routes, routes[k := r])
  {
  }

  // Moving the cut of the 2-opt scan past moves that cannot improve.

  lemma TwoOptRowStart(inst: Instance, routes: seq<Route>, scope: Scope, r: int, i: int)
    requires inst.Valid() && AllInRange(inst, routes)
    requires NoTwoOptBefore(inst, routes, scope, r, i, 0)
    ensures NoTwoOptBefore(inst, routes, scope, r, i, i + 1)
  {
    forall r', i', j' | InScope(scope, r') && Lex3(r', i', j', r, i, i + 1)
      ensures !TwoOptImproves(inst, routes, r', i', j')
    {
      if !Lex3(r', i', j', r, i, 0) {
        assert i' == i && j' <= i;
      }
    }
  }

  lemma TwoOptRowEnd(inst: Instance, routes: seq<Route>, scope: Scope, r: int, i: int)
    requires inst.Valid() && AllInRange(inst, routes) && 0 <= r < |routes|
    requires NoTwoOptBefore(inst, routes, scope, r, i, |routes[r]| - 1)
    ensures NoTwoOptBefore(inst, routes, scope, r, i + 1, 0)
  {
    forall r', i', j' | InScope(scope, r') && Lex3(r', i', j', r, i + 1, 0)
      ensures !TwoOptImproves(inst, routes, r', i', j')
    {
      if !Lex3(r', i', j', r, i, |routes[r]| - 1) {
        assert r' == r && ((i' == i && j' >= |routes[r]| - 1) || (i' == i + 1 && j' < 0));
      }
    }
  }

  /** Route r has no improving move from row i on when i >= size - 2, or when the
      route is too short or out of scope. */
  lemma TwoOptRouteEnd(inst: Instance, routes: seq<Route>, scope: Scope, r: int, i: int)
    requires inst.Valid() && AllInRange(inst, routes) && 0 <= r < |routes|
    requires i >= |routes[r]| - 2 || i <= 0
    requires i <= 0 ==> |routes[r]| < 4 || !InScope(scope, r)
    requires NoTwoOptBefore(inst, routes, scope, r, i, 0)
    ensures NoTwoOptBefore(inst, routes, scope, r + 1, 0, 0)
  {
    forall r', i', j' | InScope(scope, r') && Lex3(r', i', j', r + 1, 0, 0)
      ensures !TwoOptImproves(inst, routes, r', i', j')
    {
      if !Lex3(r', i', j', r, i, 0) {
        assert (r' == r && i' >= i) || i' <= 0;
      }
    }
  }

  /** One trial: reverse in place, keep it if feasible and cheaper, else reverse back. */
  method TwoOptTry(inst: Instance, sol: Solution, r: int, i: int, j: int, originalCost: int) returns (improved: bool)
    requires inst.Valid() && AllInRange(inst, sol.routes)
    requires 0 <= r < |sol.routes| && |sol.routes[r]| >= 4 && 1 <= i < j < |sol.routes[r]| - 1
    requires originalCost == RouteCost(inst, sol.routes[r])
    modifies sol
    ensures improved == TwoOptImproves(inst, old(sol.routes), r, i, j)
    ensures improved ==> sol.routes == TwoOptApply(old(sol.routes), r, i, j)
    ensures improved ==> AllInRange(inst, sol.routes) && sol.totalCost == SolutionCost(inst, sol.routes)
    ensures !improved ==> sol.routes == old(sol.routes) && sol.totalCost == old(sol.totalCost)
  {
    var route := sol.routes[r];
    sol.routes := sol.routes[r := ReverseSegment(route, i, j)];
    var info := CheckRouteFeasible(inst, sol.routes[r]);
    if info.ok {
      var newCost := ComputeRouteCost(inst, sol.routes[r]);
      if newCost < originalCost {
        ReplaceInRange(inst, old(sol.routes), r, sol.routes[r]);
        sol.totalCost := ComputeSolutionCost(inst, sol.routes);
        return true;
      }
    }
    ReverseBack(sol, old(sol.routes), r, i, j);
    return false;
  }

  /** Reverse the same segment again, which restores the routes. */
  method ReverseBack(sol: Solution, ghost routes0: seq<Route>, r: int, i: int, j: int)
    requires 0 <= r < |routes0| && 0 <= i <= j < |routes0[r]|
    requires sol.routes == routes0[r := ReverseSegment(routes0[r], i, j)]
    modifies sol
    ensures sol.routes == routes0 && sol.totalCost == old(sol.totalCost)
  {
    sol.routes := sol.routes[r := ReverseSegment(sol.routes[r], i, j)];
    RevertReversal(routes0, r, i, j);
  }

  /** Reversing the segment back restores the routes exactly. */
  lemma RevertReversal(routes: seq<Route>, r: int, i: int, j: int)
    requires 0 <= r < |routes| && 0 <= i <= j < |routes[r]|
    ensures routes[r := ReverseSegment(routes[r], i, j)][r := ReverseSegment(ReverseSegment(routes[r], i, j), i, j)] == routes
  {
    ReverseSegmentTwice(routes[r], i, j);
    UpdateTwice(routes, r, ReverseSegment(routes[r], i, j), routes[r]);
    UpdateSame(routes, r);
  }

  /** Row 0 holds no move: a segment starts at position 1 at the earliest. */
  lemma TwoOptRouteStart(inst: Instance, routes: seq<Route>, scope: Scope, r: int)
    requires inst.Valid() && AllInRange(inst, routes)
    requires NoTwoOptBefore(inst, routes, scope, r, 0, 0)
    ensures NoTwoOptBefore(inst, routes, scope, r, 1, 0)
  {
    forall r', i', j' | InScope(scope, r') && Lex3(r', i', j', r, 1, 0)
      ensures !TwoOptImproves(inst, routes, r', i', j')
    {
      if !Lex3(r', i', j', r, 0, 0) {
        assert r' == r && (i' <= 0 || j' < 0);
      }
    }
  }

  lemma TwoOptStep(inst: Instance, routes: seq<Route>, scope: Scope, r: int, i: int, j: int)
    requires inst.Valid() && AllInRange(inst, routes)
    requires NoTwoOptBefore(inst, routes, scope, r, i, j) && !TwoOptImproves(inst, routes, r, i, j)
    ensures NoTwoOptBefore(inst, routes, scope, r, i, j + 1)
  {
    forall r', i', j' | InScope(scope, r') && Lex3(r', i', j', r, i, j + 1)
      ensures !TwoOptImproves(inst, routes, r', i', j')
    {
      if !Lex3(r', i', j', r, i, j) {
        assert r' == r && i' == i && j' == j;
      }
    }
  }

  /** All segments [i..j] of route r for one i, j ascending. */
  method TwoOptRow(inst: Instance, sol: Solution, scope: Scope, r: int, i: int, originalCost: int)
    returns (improved: bool)
    requires inst.Valid() && AllInRange(inst, sol.routes)
    requires 0 <= r < |sol.routes| && InScope(scope, r) && |sol.routes[r]| >= 4 && 1 <= i < |sol.routes[r]| - 2
    requires originalCost == RouteCost(inst, sol.routes[r])
    requires NoTwoOptBefore(inst, sol.routes, scope, r, i, i + 1)
    modifies sol
    ensures !improved ==> sol.routes == old(sol.routes) && sol.totalCost == old(sol.totalCost)
    ensures !improved ==> NoTwoOptBefore(inst, old(sol.routes), scope, r, i, |old(sol.routes)[r]| - 1)
    ensures improved ==> TwoOptTaken(inst, old(sol.routes), scope, r, sol.routes)
    ensures improved ==> AllInRange(inst, sol.routes) && sol.totalCost == SolutionCost(inst, sol.routes)
  {
    ghost var routes0 := sol.routes;
    var size := |sol.routes[r]|;
    var j := i + 1;
    while j < size - 1
      invariant i + 1 <= j <= size - 1
      invariant sol.routes == routes0 && sol.totalCost == old(sol.totalCost)
      invariant NoTwoOptBefore(inst, routes0, scope, r, i, j)
    {
      improved := TwoOptTry(inst, sol, r, i, j, originalCost);
      if improved {
        assert TwoOptImproves(inst, routes0, r, i, j) && NoTwoOptBefore(inst, routes0, scope, r, i, j);
        return;
      }
      TwoOptStep(inst, routes0, scope, r, i, j);
      j := j + 1;
    }
    improved := false;
  }

  /** All segments [i..j] of route r, i ascending, then j ascending. */
  method TwoOptRoute(inst: Instance, sol: Solution, scope: Scope, r: int) returns (improved: bool)
    requires inst.Valid() && AllInRange(inst, sol.routes)
    requires 0 <= r < |sol.routes| && InScope(scope, r) && |sol.routes[r]| >= 4
    requires NoTwoOptBefore(inst, sol.routes, scope, r, 0, 0)
    modifies sol
    ensures !improved ==> sol.routes == old(sol.routes) && sol.totalCost == old(sol.totalCost)
    ensures !improved ==> NoTwoOptBefore(inst, old(sol.routes), scope, r + 1, 0, 0)
    ensures improved ==> TwoOptTaken(inst, old(sol.routes), scope, r, sol.routes)
    ensures improved ==> AllInRange(inst, sol.routes) && sol.totalCost == SolutionCost(inst, sol.routes)
  {
    ghost var routes0 := sol.routes;
    var size := |sol.routes[r]|;
    var originalCost := ComputeRouteCost(inst, sol.routes[r]);
    var i := 1;
    TwoOptRouteStart(inst, routes0, scope, r);
    while i < size - 2
      invariant 1 <= i <= size - 2
      invariant sol.routes == routes0 && sol.totalCost == old(sol.totalCost)
      invariant NoTwoOptBefore(inst, routes0, scope, r, i, 0)
    {
      TwoOptRowStart(inst, routes0, scope, r, i);
      improved := TwoOptRow(inst, sol, scope, r, i, originalCost);
      if improved {
        return;
      }
      TwoOptRowEnd(inst, routes0, scope, r, i);
      i := i + 1;
    }
    TwoOptRouteEnd(inst, routes0, scope, r, i);
    improved := false;
  }

  /** The 2-opt scan over the routes in scope: the first improving reversal is
      kept and true returned with its route; otherwise nothing changes and no
      route in scope has an improving reversal. */
  method TwoOptSearch(inst: Instance, sol: Solution, scope: Scope) returns (improved: bool, r: int)
    requires inst.Valid() && AllInRange(inst, sol.routes)
    modifies sol
    ensures !improved ==> sol.routes == old(sol.routes) && sol.totalCost == old(sol.totalCost)
    ensures !improved ==> TwoOptStuck(inst, old(sol.routes), scope)
    ensures improved ==> 0 <= r < |old(sol.routes)| && TwoOptTaken(inst, old(sol.routes), scope, r, sol.routes)
    ensures improved ==> AllInRange(inst, sol.routes) && sol.totalCost == SolutionCost(inst, sol.routes)
  {
    ghost var routes0 := sol.routes;
    r := 0;
    while r < |sol.routes|
      invariant 0 <= r <= |sol.routes|
      invariant sol.routes == routes0 && sol.totalCost == old(sol.totalCost)
      invariant NoTwoOptBefore(inst, routes0, scope, r, 0, 0)
    {
      if InScope(scope, r) && |sol.routes[r]| >= 4 {
        improved := TwoOptRoute(inst, sol, scope, r);
        if improved {
          return;
        }
      } else {
        TwoOptRouteEnd(inst, routes0, scope, r, 0);
      }
      r := r + 1;
    }
    improved := false;
  }

  // ---------------------------------------------------------------------------
  // Or-opt-2: move the two consecutive nodes at s, s + 1 to position p of the
  // route they were cut from.

  function OrOptMove(route: Route, s: int, p: int): Route
    requires 0 <= s && s + 2 <= |route| && 0 <= p <= |route| - 2
  {
    InsertSeqAt(RemoveRange(route, s, 2), p, route[s..s + 2])
  }

  function OrOptApply(routes: seq<Route>, r: int, s: int, p: int): seq<Route>
    requires 0 <= r < |routes| && 0 <= s && s + 2 <= |routes[r]| && 0 <= p <= |routes[r]| - 2
  {
    routes[r := OrOptMove(routes[r], s, p)]
  }

  /** In route r of at least five nodes, moving the block at start s,
      1 <= s <= size - 3, to another position p, 1 <= p <= size - 3, of the
      shortened route gives a feasible route strictly cheaper than route r. */
  predicate OrOptImproves(inst: Instance, routes: seq<Route>, r: int, s: int, p: int)
    requires inst.Valid() && AllInRange(inst, routes)
  {
    && 0 <= r < |routes| && |routes[r]| >= 5
    && 1 <= s < |routes[r]| - 2 && 1 <= p < |routes[r]| - 2 && p != s
    && Feasible(inst, OrOptMove(routes[r], s, p))
    && RouteCost(inst, OrOptMove(routes[r], s, p)) < RouteCost(inst, routes[r])
  }

  ghost predicate NoOrOptBefore(inst: Instance, routes: seq<Route>, scope: Scope, r: int, s: int, p: int)
    requires inst.Valid() && AllInRange(inst, routes)
  {
    forall r', s', p' {:trigger OrOptImproves(inst, routes, r', s', p')} ::
      InScope(scope, r') && Lex3(r', s', p', r, s, p) ==> !OrOptImproves(inst, routes, r', s', p')
  }

  ghost predicate OrOptStuck(inst: Instance, routes: seq<Route>, scope: Scope)
    requires inst.Valid() && AllInRange(inst, routes)
  {
    forall r, s, p {:trigger OrOptImproves(inst, routes, r, s, p)} ::
      InScope(scope, r) ==> !OrOptImproves(inst, routes, r, s, p)
  }

  ghost predicate OrOptTaken(inst: Instance, routes0: seq<Route>, scope: Scope, r: int, routes1: seq<Route>)
    requires inst.Valid() && AllInRange(inst, routes0)
  {
    exists s, p :: OrOptImproves(inst, routes0, r, s, p) && InScope(scope, r)
      && NoOrOptBefore(inst, routes0, scope, r, s, p) && routes1 == OrOptApply(routes0, r, s, p)
  }

  /** The block move only reorders the route. */
  lemma OrOptMoveNodes(route: Route, s: int, p: int)
    requires 0 <= s && s + 2 <= |route| && 0 <= p <= |route| - 2
    ensures multiset(OrOptMove(route, s, p)) == multiset(route)
  {
    RemoveRangeNodes(route, s, 2);
    InsertSeqAtNodes(RemoveRange(route, s, 2), p, route[s..s + 2]);
  }

  /** An improving or-opt-2 move keeps the nodes, the route ends and feasibility
      of the route set, and lowers its total cost. */
  lemma OrOptEffect(inst: Instance, routes: seq<Route>, r: int, s: int, p: int)
    requires inst.Valid() && AllInRange(inst, routes) && OrOptImproves(inst, routes, r, s, p)
    ensures AllInRange(inst, OrOptApply(routes, r, s, p))
    ensures SolutionCost(inst, OrOptApply(routes, r, s, p)) < SolutionCost(inst, routes)
    ensures Nodes(OrOptApply(routes, r, s, p)) == Nodes(routes)
    ensures Shaped(inst, routes) ==> SameEnds(routes, OrOptApply(routes, r, s, p))
    ensures AllFeasible(inst, routes) ==> AllFeasible(inst, OrOptApply(routes, r, s, p))
  {
    var route := routes[r];
    var route' := OrOptMove(route, s, p);
    assert OrOptApply(routes, r, s, p) == routes[r := route'];
    OrOptMoveNodes(route, s, p);
    OrOptMoveEnds(route, s, p);
    ReplaceImproving(inst, routes, r, route');
  }

  /** Replacing a route by a feasible, strictly cheaper route over the same
      nodes with the same ends: what every intra-route move does. */
  lemma ReplaceImproving(inst: Instance, routes: seq<Route>, r: int, route': Route)
    requires inst.Valid() && AllInRange(inst, routes) && 0 <= r < |routes|
    requires Feasible(inst, route') && multiset(route') == multiset(routes[r])
    requires |routes[r]| >= 1 && |route'| == |routes[r]|
    requires route'[0] == routes[r][0] && route'[|route'| - 1] == routes[r][|routes[r]| - 1]
    requires RouteCost(inst, route') < RouteCost(inst, routes[r])
    ensures AllInRange(inst, routes[r := route'])
    ensures SolutionCost(inst, routes[r := route']) < SolutionCost(inst, routes)
    ensures Nodes(routes[r := route']) == Nodes(routes)
    ensures Shaped(inst, routes) ==> SameEnds(routes, routes[r := route'])
    ensures AllFeasible(inst, routes) ==> AllFeasible(inst, routes[r := route'])
  {
    FeasibleIsWellFormed(inst, route');
    SolutionCostUpdate(inst, routes, r, route');
    NodesReplaceSame(routes, r, route');
    if Shaped(inst, routes) {
      ReplaceKeepsEnds(routes, r, route');
    }
    if AllFeasible(inst, routes) {
      ReplaceFeasible(inst, routes, r, route');
    }
  }

  /** Moving an interior block keeps the first and the last node of the route. */
  lemma OrOptMoveEnds(route: Route, s: int, p: int)
    requires 1 <= s && s + 2 <= |route| - 1 && 1 <= p <= |route| - 3
    ensures |OrOptMove(route, s, p)| == |route|
    ensures OrOptMove(route, s, p)[0] == route[0]
    ensures OrOptMove(route, s, p)[|route| - 1] == route[|route| - 1]
  {
    var cut := RemoveRange(route, s, 2);
    var moved := InsertSeqAt(cut, p, route[s..s + 2]);
    assert cut[0] == route[0] && cut[|cut| - 1] == route[|route| - 1];
    assert moved[0] == cut[0];
    assert moved[|moved| - 1] == cut[|cut| - 1];
  }

  lemma OrOptRowStart(inst: Instance, routes: seq<Route>, scope: Scope, r: int, s: int)
    requires inst.Valid() && AllInRange(inst, routes)
    requires NoOrOptBefore(inst, routes, scope, r, s, 0)
    ensures NoOrOptBefore(inst, routes, scope, r, s, 1)
  {
    forall r', s', p' | InScope(scope, r') && Lex3(r', s', p', r, s, 1)
      ensures !OrOptImproves(inst, routes, r', s', p')
    {
      if !Lex3(r', s', p', r, s, 0) {
        assert p' == 0;
      }
    }
  }

  lemma OrOptStep(inst: Instance, routes: seq<Route>, scope: Scope, r: int, s: int, p: int)
    requires inst.Valid() && AllInRange(inst, routes)
    requires NoOrOptBefore(inst, routes, scope, r, s, p) && !OrOptImproves(inst, routes, r, s, p)
    ensures NoOrOptBefore(inst, routes, scope, r, s, p + 1)
  {
    forall r', s', p' | InScope(scope, r') && Lex3(r', s', p', r, s, p + 1)
      ensures !OrOptImproves(inst, routes, r', s', p')
    {
      if !Lex3(r', s', p', r, s, p) {
        assert r' == r && s' == s && p' == p;
      }
    }
  }

  lemma OrOptRowEnd(inst: Instance, routes: seq<Route>, scope: Scope, r: int, s: int)
    requires inst.Valid() && AllInRange(inst, routes) && 0 <= r < |routes|
    requires NoOrOptBefore(inst, routes, scope, r, s, |routes[r]| - 2)
    ensures NoOrOptBefore(inst, routes, scope, r, s + 1, 0)
  {
    forall r', s', p' | InScope(scope, r') && Lex3(r', s', p', r, s + 1, 0)
      ensures !OrOptImproves(inst, routes, r', s', p')
    {
      if !Lex3(r', s', p', r, s, |routes[r]| - 2) {
        assert r' == r && ((s' == s && p' >= |routes[r]| - 2) || (s' == s + 1 && p' < 0));
      }
    }
  }

  lemma OrOptRouteEnd(inst: Instance, routes: seq<Route>, scope: Scope, r: int, s: int)
    requires inst.Valid() && AllInRange(inst, routes) && 0 <= r < |routes|
    requires s >= |routes[r]| - 2 || s <= 0
    requires s <= 0 ==> |routes[r]| < 5 || !InScope(scope, r)
    requires NoOrOptBefore(inst, routes, scope, r, s, 0)
    ensures NoOrOptBefore(inst, routes, scope, r + 1, 0, 0)
  {
    forall r', s', p' | InScope(scope, r') && Lex3(r', s', p', r + 1, 0, 0)
      ensures !OrOptImproves(inst, routes, r', s', p')
    {
      if !Lex3(r', s', p', r, s, 0) {
        assert (r' == r && s' >= s) || s' <= 0;
      }
    }
  }

  /** One trial on the shortened route: insert the block at p, keep it if the
      route is feasible and cheaper, else cut the block out again. */
  method OrOptTry(inst: Instance, sol: Solution, r: int, s: int, p: int, chain: Route, originalCost: int,
                  ghost routes0: seq<Route>) returns (improved: bool)
    requires inst.Valid() && AllInRange(inst, routes0)
    requires 0 <= r < |routes0| && |routes0[r]| >= 5 && 1 <= s < |routes0[r]| - 2
    requires 1 <= p < |routes0[r]| - 2 && p != s
    requires chain == routes0[r][s..s + 2] && originalCost == RouteCost(inst, routes0[r])
    requires sol.routes == routes0[r := RemoveRange(routes0[r], s, 2)]
    modifies sol
    ensures improved == OrOptImproves(inst, routes0, r, s, p)
    ensures improved ==> sol.routes == OrOptApply(routes0, r, s, p)
    ensures improved ==> AllInRange(inst, sol.routes) && sol.totalCost == SolutionCost(inst, sol.routes)
    ensures !improved ==> sol.routes == old(sol.routes) && sol.totalCost == old(sol.totalCost)
  {
    var route := sol.routes[r];
    sol.routes := sol.routes[r := InsertSeqAt(route, p, chain)];
    UpdateTwice(routes0, r, route, sol.routes[r]);
    var info := CheckRouteFeasible(inst, sol.routes[r]);
    if info.ok {
      var newCost := ComputeRouteCost(inst, sol.routes[r]);
      if newCost < originalCost {
        ReplaceInRange(inst, routes0, r, sol.routes[r]);
        sol.totalCost := ComputeSolutionCost(inst, sol.routes);
        return true;
      }
    }
    TakeBlockOut(sol, old(sol.routes), r, p, chain);
    return false;
  }

  /** Cut the block inserted at p out again, which restores the routes. */
  method TakeBlockOut(sol: Solution, ghost cut: seq<Route>, r: int, p: int, chain: Route)
    requires 0 <= r < |cut| && 0 <= p <= |cut[r]| && |chain| == 2
    requires sol.routes == cut[r := InsertSeqAt(cut[r], p, chain)]
    modifies sol
    ensures sol.routes == cut && sol.totalCost == old(sol.totalCost)
  {
    RemoveInsertSeq(cut[r], p, chain);
    UpdateTwice(cut, r, sol.routes[r], cut[r]);
    UpdateSame(cut, r);
    sol.routes := sol.routes[r := RemoveRange(sol.routes[r], p, 2)];
  }

  /** All insertion positions of the block that starts at s; the block is cut
      out first and put back at s when no position improves. */
  method OrOptStart(inst: Instance, sol: Solution, scope: Scope, r: int, s: int, originalCost: int)
    returns (improved: bool)
    requires inst.Valid() && AllInRange(inst, sol.routes)
    requires 0 <= r < |sol.routes| && InScope(scope, r) && |sol.routes[r]| >= 5 && 1 <= s < |sol.routes[r]| - 2
    requires originalCost == RouteCost(inst, sol.routes[r])
    requires NoOrOptBefore(inst, sol.routes, scope, r, s, 0)
    modifies sol
    ensures !improved ==> sol.routes == old(sol.routes) && sol.totalCost == old(sol.totalCost)
    ensures !improved ==> NoOrOptBefore(inst, old(sol.routes), scope, r, s + 1, 0)
    ensures improved ==> OrOptTaken(inst, old(sol.routes), scope, r, sol.routes)
    ensures improved ==> AllInRange(inst, sol.routes) && sol.totalCost == SolutionCost(inst, sol.routes)
  {
    ghost var routes0 := sol.routes;
    var route := sol.routes[r];
    var chain := [route[s], route[s + 1]];
    assert chain == route[s..s + 2];
    sol.routes := sol.routes[r := RemoveRange(route, s, 2)];
    ghost var cut := sol.routes;
    OrOptRowStart(inst, routes0, scope, r, s);
    var p := 1;
    while p < |sol.routes[r]|
      invariant sol.routes == cut && sol.totalCost == old(sol.totalCost)
      invariant 1 <= p <= |route| - 2
      invariant NoOrOptBefore(inst, routes0, scope, r, s, p)
    {
      if p != s {
        improved := OrOptTry(inst, sol, r, s, p, chain, originalCost, routes0);
        if improved {
          assert OrOptImproves(inst, routes0, r, s, p) && NoOrOptBefore(inst, routes0, scope, r, s, p);
          return;
        }
      }
      OrOptStep(inst, routes0, scope, r, s, p);
      p := p + 1;
    }
    OrOptRowEnd(inst, routes0, scope, r, s);
    OrOptPutBack(sol, routes0, r, s, chain);
    improved := false;
  }

  /** Puts the block cut out at s back where it was. */
  method OrOptPutBack(sol: Solution, ghost routes0: seq<Route>, r: int, s: int, chain: Route)
    requires 0 <= r < |routes0| && 0 <= s && s + 2 <= |routes0[r]| && chain == routes0[r][s..s + 2]
    requires sol.routes == routes0[r := RemoveRange(routes0[r], s, 2)]
    modifies sol
    ensures sol.routes == routes0 && sol.totalCost == old(sol.totalCost)
  {
    ghost var route := routes0[r];
    InsertSeqRemove(route, s, 2);
    UpdateTwice(routes0, r, sol.routes[r], route);
    UpdateSame(routes0, r);
    sol.routes := sol.routes[r := InsertSeqAt(sol.routes[r], s, chain)];
  }

  method OrOptRoute(inst: Instance, sol: Solution, scope: Scope, r: int) returns (improved: bool)
    requires inst.Valid() && AllInRange(inst, sol.routes)
    requires 0 <= r < |sol.routes| && InScope(scope, r) && |sol.routes[r]| >= 5
    requires NoOrOptBefore(inst, sol.routes, scope, r, 0, 0)
    modifies sol
    ensures !improved ==> sol.routes == old(sol.routes) && sol.totalCost == old(sol.totalCost)
    ensures !improved ==> NoOrOptBefore(inst, old(sol.routes), scope, r + 1, 0, 0)
    ensures improved ==> OrOptTaken(inst, old(sol.routes), scope, r, sol.routes)
    ensures improved ==> AllInRange(inst, sol.routes) && sol.totalCost == SolutionCost(inst, sol.routes)
  {
    ghost var routes0 := sol.routes;
    var size := |sol.routes[r]|;
    var originalCost := ComputeRouteCost(inst, sol.routes[r]);
    assert NoOrOptBefore(inst, routes0, scope, r, 1, 0);
    var s := 1;
    while s < size - 2
      invariant 1 <= s <= size - 2
      invariant sol.routes == routes0 && sol.totalCost == old(sol.totalCost)
      invariant NoOrOptBefore(inst, routes0, scope, r, s, 0)
    {
      improved := OrOptStart(inst, sol, scope, r, s, originalCost);
      if improved {
        return;
      }
      s := s + 1;
    }
    OrOptRouteEnd(inst, routes0, scope, r, s);
    improved := false;
  }

  /** The or-opt-2 scan over the routes in scope: the first improving block move
      is kept and true returned with its route; otherwise nothing changes and no
      route in scope has an improving block move. */
  method OrOptSearch(inst: Instance, sol: Solution, scope: Scope) returns (improved: bool, r: int)
    requires inst.Valid() && AllInRange(inst, sol.routes)
    modifies sol
    ensures !improved ==> sol.routes == old(sol.routes) && sol.totalCost == old(sol.totalCost)
    ensures !improved ==> OrOptStuck(inst, old(sol.routes), scope)
    ensures improved ==> 0 <= r < |old(sol.routes)| && OrOptTaken(inst, old(sol.routes), scope, r, sol.routes)
    ensures improved ==> AllInRange(inst, sol.routes) && sol.totalCost == SolutionCost(inst, sol.routes)
  {
    ghost var routes0 := sol.routes;
    r := 0;
    while r < |sol.routes|
      invariant 0 <= r <= |sol.routes|
      invariant sol.routes == routes0 && sol.totalCost == old(sol.totalCost)
      invariant NoOrOptBefore(inst, routes0, scope, r, 0, 0)
    {
      if InScope(scope, r) && |sol.routes[r]| >= 5 {
        improved := OrOptRoute(inst, sol, scope, r);
        if improved {
          return;
        }
      } else {
        OrOptRouteEnd(inst, routes0, scope, r, 0);
      }
      r := r + 1;
    }
    improved := false;
  }

  // ---------------------------------------------------------------------------
  // Relocate: cut the node at position c of route f and insert it at position p
  // of route t (t may be f; p is then a position of the shortened route).

  lemma UpdateKeepsEnds(s: Route, k: int, x: int)
    requires 1 <= k < |s| - 1
    ensures s[k := x][0] == s[0] && s[k := x][|s| - 1] == s[|s| - 1]
  {
  }

  function RelocateCut(routes: seq<Route>, f: int, c: int): seq<Route>
    requires 0 <= f < |routes| && 0 <= c < |routes[f]|
  {
    routes[f := RemoveAt(routes[f], c)]
  }

  function RelocateApply(routes: seq<Route>, f: int, c: int, t: int, p: int): (rs: seq<Route>)
    requires 0 <= f < |routes| && 0 <= c < |routes[f]| && 0 <= t < |routes|
    requires 0 <= p <= |RelocateCut(routes, f, c)[t]|
    ensures |rs| == |routes|
  {
    var cut := RelocateCut(routes, f, c);
    cut[t := InsertAt(cut[t], p, routes[f][c])]
  }

  /** Both changed routes of a relocation hold node ids only when they are feasible. */
  lemma RelocateApplyInRange(inst: Instance, routes: seq<Route>, f: int, c: int, t: int, p: int)
    requires AllInRange(inst, routes)
    requires 0 <= f < |routes| && 0 <= c < |routes[f]| && 0 <= t < |routes|
    requires 0 <= p <= |RelocateCut(routes, f, c)[t]|
    requires Feasible(inst, RelocateApply(routes, f, c, t, p)[f]) && Feasible(inst, RelocateApply(routes, f, c, t, p)[t])
    ensures AllInRange(inst, RelocateApply(routes, f, c, t, p))
  {
    var rs := RelocateApply(routes, f, c, t, p);
    forall k | 0 <= k < |rs| ensures InRange(inst, rs[k]) {
      if k != f && k != t {
        assert rs[k] == routes[k];
      }
    }
  }

  /** Moving the interior node c of route f (more than two nodes) to position p of
      route t, 1 <= p <= size - 1 of the route after the cut and not back to its
      own place, leaves both changed routes feasible and the total cost below base. */
  predicate RelocateImproves(inst: Instance, routes: seq<Route>, base: int, f: int, c: int, t: int, p: int)
    requires inst.Valid() && AllInRange(inst, routes)
  {
    && 0 <= f < |routes| && |routes[f]| > 2 && 1 <= c < |routes[f]| - 1
    && 0 <= t < |routes| && 1 <= p <= |RelocateCut(routes, f, c)[t]| - 1
    && !(t == f && p == c)
    && Feasible(inst, RelocateApply(routes, f, c, t, p)[f])
    && Feasible(inst, RelocateApply(routes, f, c, t, p)[t])
    && (RelocateApplyInRange(inst, routes, f, c, t, p);
        SolutionCost(inst, RelocateApply(routes, f, c, t, p)) < base)
  }

  ghost predicate NoRelocateBefore(inst: Instance, routes: seq<Route>, base: int, f: int, c: int, t: int, p: int)
    requires inst.Valid() && AllInRange(inst, routes)
  {
    forall f', c', t', p' {:trigger RelocateImproves(inst, routes, base, f', c', t', p')} ::
      Lex4(f', c', t', p', f, c, t, p) ==> !RelocateImproves(inst, routes, base, f', c', t', p')
  }

  ghost predicate RelocateStuck(inst: Instance, routes: seq<Route>, base: int)
    requires inst.Valid() && AllInRange(inst, routes)
  {
    forall f, c, t, p {:trigger RelocateImproves(inst, routes, base, f, c, t, p)} ::
      !RelocateImproves(inst, routes, base, f, c, t, p)
  }

  /** routes1 is routes0 after the first improving relocation, from route f to route t. */
  ghost predicate RelocateTaken(inst: Instance, routes0: seq<Route>, base: int, f: int, t: int, routes1: seq<Route>)
    requires inst.Valid() && AllInRange(inst, routes0)
  {
    exists c, p :: RelocateImproves(inst, routes0, base, f, c, t, p)
      && NoRelocateBefore(inst, routes0, base, f, c, t, p) && routes1 == RelocateApply(routes0, f, c, t, p)
  }

  lemma RelocateNodes(routes: seq<Route>, f: int, c: int, t: int, p: int)
    requires 0 <= f < |routes| && 0 <= c < |routes[f]| && 0 <= t < |routes|
    requires 0 <= p <= |RelocateCut(routes, f, c)[t]|
    ensures Nodes(RelocateApply(routes, f, c, t, p)) == Nodes(routes)
  {
    var a := RemoveAt(routes[f], c);
    RemoveAtNodes(routes[f], c);
    if t == f {
      var b := InsertAt(a, p, routes[f][c]);
      InsertAtNodes(a, p, routes[f][c]);
      UpdateTwice(routes, f, a, b);
      NodesReplaceSame(routes, f, b);
    } else {
      var b := InsertAt(routes[t], p, routes[f][c]);
      InsertAtNodes(routes[t], p, routes[f][c]);
      NodesUpdate2(routes, f, a, t, b);
    }
  }

  lemma RelocateEnds(routes: seq<Route>, f: int, c: int, t: int, p: int)
    requires forall q :: 0 <= q < |routes| ==> |routes[q]| >= 1
    requires 0 <= f < |routes| && 1 <= c < |routes[f]| - 1 && 0 <= t < |routes|
    requires 1 <= p <= |RelocateCut(routes, f, c)[t]| - 1
    ensures SameEnds(routes, RelocateApply(routes, f, c, t, p))
  {
    var rs := RelocateApply(routes, f, c, t, p);
    forall k | 0 <= k < |routes|
      ensures |rs[k]| >= 1 && rs[k][0] == routes[k][0] && rs[k][|rs[k]| - 1] == routes[k][|routes[k]| - 1]
    {
      if k != f && k != t {
        assert rs[k] == routes[k];
      }
    }
  }

  /** An improving relocation moves one node and no other route: the nodes, the
      route ends and feasibility of the route set are kept, and the total cost
      falls below base. */
  lemma RelocateEffect(inst: Instance, routes: seq<Route>, base: int, f: int, c: int, t: int, p: int)
    requires inst.Valid() && AllInRange(inst, routes) && RelocateImproves(inst, routes, base, f, c, t, p)
    ensures AllInRange(inst, RelocateApply(routes, f, c, t, p))
    ensures SolutionCost(inst, RelocateApply(routes, f, c, t, p)) < base
    ensures forall k :: 0 <= k < |routes| && k != f && k != t ==> RelocateApply(routes, f, c, t, p)[k] == routes[k]
    ensures Nodes(RelocateApply(routes, f, c, t, p)) == Nodes(routes)
    ensures Shaped(inst, routes) ==> SameEnds(routes, RelocateApply(routes, f, c, t, p))
    ensures AllFeasible(inst, routes) ==> AllFeasible(inst, RelocateApply(routes, f, c, t, p))
  {
    RelocateApplyInRange(inst, routes, f, c, t, p);
    RelocateNodes(routes, f, c, t, p);
    if Shaped(inst, routes) {
      RelocateEnds(routes, f, c, t, p);
    }
    var rs := RelocateApply(routes, f, c, t, p);
    if AllFeasible(inst, routes) {
      forall k | 0 <= k < |rs| ensures Feasible(inst, rs[k]) {
        if k != f && k != t {
          assert rs[k] == routes[k];
        }
      }
    }
  }

  // Moving the cut of the relocate scan past moves that cannot improve.

  lemma RelocateStep(inst: Instance, routes: seq<Route>, base: int, f: int, c: int, t: int, p: int)
    requires inst.Valid() && AllInRange(inst, routes)
    requires NoRelocateBefore(inst, routes, base, f, c, t, p) && !RelocateImproves(inst, routes, base, f, c, t, p)
    ensures NoRelocateBefore(inst, routes, base, f, c, t, p + 1)
  {
    forall f', c', t', p' | Lex4(f', c', t', p', f, c, t, p + 1)
      ensures !RelocateImproves(inst, routes, base, f', c', t', p')
    {
      if !Lex4(f', c', t', p', f, c, t, p) {
        assert f' == f && c' == c && t' == t && p' == p;
      }
    }
  }

  lemma RelocateTargetStart(inst: Instance, routes: seq<Route>, base: int, f: int, c: int, t: int)
    requires inst.Valid() && AllInRange(inst, routes)
    requires NoRelocateBefore(inst, routes, base, f, c, t, 0)
    ensures NoRelocateBefore(inst, routes, base, f, c, t, 1)
  {
    forall f', c', t', p' | Lex4(f', c', t', p', f, c, t, 1)
      ensures !RelocateImproves(inst, routes, base, f', c', t', p')
    {
      if !Lex4(f', c', t', p', f, c, t, 0) {
        assert p' == 0;
      }
    }
  }

  lemma RelocateTargetEnd(inst: Instance, routes: seq<Route>, base: int, f: int, c: int, t: int, p: int)
    requires inst.Valid() && AllInRange(inst, routes)
    requires 0 <= f < |routes| && 0 <= c < |routes[f]| && 0 <= t < |routes|
    requires p >= |RelocateCut(routes, f, c)[t]|
    requires NoRelocateBefore(inst, routes, base, f, c, t, p)
    ensures NoRelocateBefore(inst, routes, base, f, c, t + 1, 0)
  {
    forall f', c', t', p' | Lex4(f', c', t', p', f, c, t + 1, 0)
      ensures !RelocateImproves(inst, routes, base, f', c', t', p')
    {
      if !Lex4(f', c', t', p', f, c, t, p) {
        assert f' == f && c' == c && ((t' == t && p' >= p) || p' < 0);
      }
    }
  }

  lemma RelocateClientEnd(inst: Instance, routes: seq<Route>, base: int, f: int, c: int)
    requires inst.Valid() && AllInRange(inst, routes)
    requires NoRelocateBefore(inst, routes, base, f, c, |routes|, 0)
    ensures NoRelocateBefore(inst, routes, base, f, c + 1, 0, 0)
  {
    forall f', c', t', p' | Lex4(f', c', t', p', f, c + 1, 0, 0)
      ensures !RelocateImproves(inst, routes, base, f', c', t', p')
    {
      if !Lex4(f', c', t', p', f, c, |routes|, 0) {
        assert t' >= |routes| || t' < 0 || p' < 0;
      }
    }
  }

  lemma RelocateFromStart(inst: Instance, routes: seq<Route>, base: int, f: int)
    requires inst.Valid() && AllInRange(inst, routes)
    requires NoRelocateBefore(inst, routes, base, f, 0, 0, 0)
    ensures NoRelocateBefore(inst, routes, base, f, 1, 0, 0)
  {
    forall f', c', t', p' | Lex4(f', c', t', p', f, 1, 0, 0)
      ensures !RelocateImproves(inst, routes, base, f', c', t', p')
    {
      if !Lex4(f', c', t', p', f, 0, 0, 0) {
        assert c' == 0 || t' < 0 || p' < 0;
      }
    }
  }

  /** Route f has no improving move from client c on when c >= size - 1, or when
      the route has at most two nodes. */
  lemma RelocateFromEnd(inst: Instance, routes: seq<Route>, base: int, f: int, c: int)
    requires inst.Valid() && AllInRange(inst, routes) && 0 <= f < |routes|
    requires c >= |routes[f]| - 1 || (c <= 0 && |routes[f]| <= 2)
    requires NoRelocateBefore(inst, routes, base, f, c, 0, 0)
    ensures NoRelocateBefore(inst, routes, base, f + 1, 0, 0, 0)
  {
    forall f', c', t', p' | Lex4(f', c', t', p', f + 1, 0, 0, 0)
      ensures !RelocateImproves(inst, routes, base, f', c', t', p')
    {
      if !Lex4(f', c', t', p', f, c, 0, 0) {
        assert (f' == f && c' >= c) || c' <= 0;
      }
    }
  }

  /** One trial with the client already cut out: insert it at p of route t, keep
      the move if both routes are feasible and the total cost is below base, else
      cut it out again. */
  method RelocateTry(inst: Instance, sol: Solution, base: int, f: int, c: int, t: int, p: int, client: int,
                     ghost routes0: seq<Route>) returns (improved: bool)
    requires inst.Valid() && AllInRange(inst, routes0)
    requires 0 <= f < |routes0| && |routes0[f]| > 2 && 1 <= c < |routes0[f]| - 1 && client == routes0[f][c]
    requires 0 <= t < |routes0| && 1 <= p <= |RelocateCut(routes0, f, c)[t]| - 1 && !(t == f && p == c)
    requires sol.routes == RelocateCut(routes0, f, c)
    modifies sol
    ensures improved == RelocateImproves(inst, routes0, base, f, c, t, p)
    ensures improved ==> sol.routes == RelocateApply(routes0, f, c, t, p)
    ensures improved ==> AllInRange(inst, sol.routes) && sol.totalCost == SolutionCost(inst, sol.routes)
    ensures !improved ==> sol.routes == old(sol.routes) && sol.totalCost == old(sol.totalCost)
  {
    var route := sol.routes[t];
    sol.routes := sol.routes[t := InsertAt(route, p, client)];
    var fromInfo := CheckRouteFeasible(inst, sol.routes[f]);
    var toInfo := CheckRouteFeasible(inst, sol.routes[t]);
    if fromInfo.ok && toInfo.ok {
      RelocateApplyInRange(inst, routes0, f, c, t, p);
      var newCost := ComputeSolutionCost(inst, sol.routes);
      if newCost < base {
        sol.totalCost := newCost;
        return true;
      }
    }
    RemoveInsert(route, p, client);
    UpdateTwice(old(sol.routes), t, sol.routes[t], route);
    UpdateSame(old(sol.routes), t);
    sol.routes := sol.routes[t := RemoveAt(sol.routes[t], p)];
    return false;
  }

  /** All insertion positions 1..size - 1 of route t for the cut-out client. */
  method RelocateTarget(inst: Instance, sol: Solution, base: int, f: int, c: int, t: int, client: int,
                        ghost routes0: seq<Route>) returns (improved: bool)
    requires inst.Valid() && AllInRange(inst, routes0)
    requires 0 <= f < |routes0| && |routes0[f]| > 2 && 1 <= c < |routes0[f]| - 1 && client == routes0[f][c]
    requires 0 <= t < |routes0| && sol.routes == RelocateCut(routes0, f, c)
    requires NoRelocateBefore(inst, routes0, base, f, c, t, 0)
    modifies sol
    ensures !improved ==> sol.routes == old(sol.routes) && sol.totalCost == old(sol.totalCost)
    ensures !improved ==> NoRelocateBefore(inst, routes0, base, f, c, t + 1, 0)
    ensures improved ==> RelocateTaken(inst, routes0, base, f, t, sol.routes)
    ensures improved ==> AllInRange(inst, sol.routes) && sol.totalCost == SolutionCost(inst, sol.routes)
  {
    ghost var cut := sol.routes;
    RelocateTargetStart(inst, routes0, base, f, c, t);
    var p := 1;
    while p <= |sol.routes[t]| - 1
      invariant sol.routes == cut && sol.totalCost == old(sol.totalCost)
      invariant 1 <= p
      invariant NoRelocateBefore(inst, routes0, base, f, c, t, p)
    {
      if !(t == f && p == c) {
        improved := RelocateTry(inst, sol, base, f, c, t, p, client, routes0);
        if improved {
          assert RelocateImproves(inst, routes0, base, f, c, t, p) && NoRelocateBefore(inst, routes0, base, f, c, t, p);
          return;
        }
      }
      RelocateStep(inst, routes0, base, f, c, t, p);
      p := p + 1;
    }
    RelocateTargetEnd(inst, routes0, base, f, c, t, p);
    improved := false;
  }

  /** Cut the client at c of route f out, try every route as target, and put
      the client back at c when none improves. */
  method RelocateClient(inst: Instance, sol: Solution, base: int, f: int, c: int) returns (improved: bool, t: int)
    requires inst.Valid() && AllInRange(inst, sol.routes)
    requires 0 <= f < |sol.routes| && |sol.routes[f]| > 2 && 1 <= c < |sol.routes[f]| - 1
    requires NoRelocateBefore(inst, sol.routes, base, f, c, 0, 0)
    modifies sol
    ensures !improved ==> sol.routes == old(sol.routes) && sol.totalCost == old(sol.totalCost)
    ensures !improved ==> NoRelocateBefore(inst, old(sol.routes), base, f, c + 1, 0, 0)
    ensures improved ==> RelocateTaken(inst, old(sol.routes), base, f, t, sol.routes)
    ensures improved ==> AllInRange(inst, sol.routes) && sol.totalCost == SolutionCost(inst, sol.routes)
  {
    ghost var routes0 := sol.routes;
    var route := sol.routes[f];
    var client := route[c];
    sol.routes := sol.routes[f := RemoveAt(route, c)];
    ghost var cut := sol.routes;
    t := 0;
    while t < |sol.routes|
      invariant 0 <= t <= |sol.routes| == |routes0|
      invariant sol.routes == cut && sol.totalCost == old(sol.totalCost)
      invariant NoRelocateBefore(inst, routes0, base, f, c, t, 0)
    {
      improved := RelocateTarget(inst, sol, base, f, c, t, client, routes0);
      if improved {
        return;
      }
      t := t + 1;
    }
    RelocateClientEnd(inst, routes0, base, f, c);
    InsertRemove(route, c);
    UpdateTwice(routes0, f, cut[f], route);
    UpdateSame(routes0, f);
    sol.routes := sol.routes[f := InsertAt(sol.routes[f], c, client)];
    improved := false;
  }

  method RelocateFrom(inst: Instance, sol: Solution, base: int, f: int) returns (improved: bool, t: int)
    requires inst.Valid() && AllInRange(inst, sol.routes)
    requires 0 <= f < |sol.routes| && |sol.routes[f]| > 2
    requires NoRelocateBefore(inst, sol.routes, base, f, 0, 0, 0)
    modifies sol
    ensures !improved ==> sol.routes == old(sol.routes) && sol.totalCost == old(sol.totalCost)
    ensures !improved ==> NoRelocateBefore(inst, old(sol.routes), base, f + 1, 0, 0, 0)
    ensures improved ==> RelocateTaken(inst, old(sol.routes), base, f, t, sol.routes)
    ensures improved ==> AllInRange(inst, sol.routes) && sol.totalCost == SolutionCost(inst, sol.routes)
  {
    ghost var routes0 := sol.routes;
    RelocateFromStart(inst, routes0, base, f);
    var c := 1;
    t := 0;
    while c < |sol.routes[f]| - 1
      invariant 1 <= c <= |routes0[f]| - 1
      invariant sol.routes == routes0 && sol.totalCost == old(sol.totalCost)
      invariant NoRelocateBefore(inst, routes0, base, f, c, 0, 0)
    {
      improved, t := RelocateClient(inst, sol, base, f, c);
      if improved {
        return;
      }
      c := c + 1;
    }
    RelocateFromEnd(inst, routes0, base, f, c);
    improved := false;
  }

  /** The relocate scan against base, the solution's recorded total cost on entry:
      the first improving relocation is kept and true returned with its source
      and target routes; otherwise nothing changes and no relocation improves. */
  method RelocateSearch(inst: Instance, sol: Solution) returns (improved: bool, f: int, t: int)
    requires inst.Valid() && Shaped(inst, sol.routes)
    modifies sol
    ensures !improved ==> sol.routes == old(sol.routes) && sol.totalCost == old(sol.totalCost)
    ensures !improved ==> RelocateStuck(inst, old(sol.routes), old(sol.totalCost))
    ensures improved ==> RelocateTaken(inst, old(sol.routes), old(sol.totalCost), f, t, sol.routes)
    ensures improved ==> AllInRange(inst, sol.routes) && sol.totalCost == SolutionCost(inst, sol.routes)
  {
    ghost var routes0 := sol.routes;
    var base := sol.totalCost;
    f, t := 0, 0;
    while f < |sol.routes|
      invariant 0 <= f <= |sol.routes|
      invariant sol.routes == routes0 && sol.totalCost == old(sol.totalCost)
      invariant NoRelocateBefore(inst, routes0, base, f, 0, 0, 0)
    {
      if |sol.routes[f]| > 2 {
        improved, t := RelocateFrom(inst, sol, base, f);
        if improved {
          return;
        }
      } else {
        RelocateFromEnd(inst, routes0, base, f, 0);
      }
      f := f + 1;
    }
    improved := false;
  }

  // ---------------------------------------------------------------------------
  // Swap: exchange the interior node p1 of route r1 with the interior node p2
  // of a later route r2.

  /** What SwapNodes does to each route, and that swapping again undoes it. */
  lemma SwapNodesAt(routes: seq<Route>, r1: int, p1: int, r2: int, p2: int)
    requires 0 <= r1 < |routes| && 0 <= r2 < |routes| && r1 != r2
    requires 0 <= p1 < |routes[r1]| && 0 <= p2 < |routes[r2]|
    ensures SwapNodes(routes, r1, p1, r2, p2)[r1] == routes[r1][p1 := routes[r2][p2]]
    ensures SwapNodes(routes, r1, p1, r2, p2)[r2] == routes[r2][p2 := routes[r1][p1]]
    ensures forall k :: 0 <= k < |routes| && k != r1 && k != r2 ==> SwapNodes(routes, r1, p1, r2, p2)[k] == routes[k]
    ensures SwapNodes(SwapNodes(routes, r1, p1, r2, p2), r1, p1, r2, p2) == routes
  {
    var rs := SwapNodes(routes, r1, p1, r2, p2);
    var back := SwapNodes(rs, r1, p1, r2, p2);
    assert back[r1] == routes[r1];
    assert back[r2] == routes[r2];
  }

  lemma SwapApplyInRange(inst: Instance, routes: seq<Route>, r1: int, p1: int, r2: int, p2: int)
    requires AllInRange(inst, routes)
    requires 0 <= r1 < |routes| && 0 <= r2 < |routes| && r1 != r2
    requires 0 <= p1 < |routes[r1]| && 0 <= p2 < |routes[r2]|
    ensures AllInRange(inst, SwapNodes(routes, r1, p1, r2, p2))
  {
    SwapNodesAt(routes, r1, p1, r2, p2);
    var rs := SwapNodes(routes, r1, p1, r2, p2);
    forall k | 0 <= k < |rs| ensures InRange(inst, rs[k]) {
      if k != r1 && k != r2 {
        assert rs[k] == routes[k];
      }
    }
  }

  /** Exchanging interior node p1 of route r1 with interior node p2 of route
      r2 > r1, both routes with more than two nodes, leaves both routes feasible
      and the total cost below base. */
  predicate SwapImproves(inst: Instance, routes: seq<Route>, base: int, r1: int, r2: int, p1: int, p2: int)
    requires inst.Valid() && AllInRange(inst, routes)
  {
    && 0 <= r1 < r2 < |routes| && |routes[r1]| > 2 && |routes[r2]| > 2
    && 1 <= p1 < |routes[r1]| - 1 && 1 <= p2 < |routes[r2]| - 1
    && Feasible(inst, SwapNodes(routes, r1, p1, r2, p2)[r1])
    && Feasible(inst, SwapNodes(routes, r1, p1, r2, p2)[r2])
    && (SwapApplyInRange(inst, routes, r1, p1, r2, p2);
        SolutionCost(inst, SwapNodes(routes, r1, p1, r2, p2)) < base)
  }

  ghost predicate NoSwapBefore(inst: Instance, routes: seq<Route>, base: int, r1: int, r2: int, p1: int, p2: int)
    requires inst.Valid() && AllInRange(inst, routes)
  {
    forall a, b, x, y {:trigger SwapImproves(inst, routes, base, a, b, x, y)} ::
      Lex4(a, b, x, y, r1, r2, p1, p2) ==> !SwapImproves(inst, routes, base, a, b, x, y)
  }

  ghost predicate SwapStuck(inst: Instance, routes: seq<Route>, base: int)
    requires inst.Valid() && AllInRange(inst, routes)
  {
    forall a, b, x, y {:trigger SwapImproves(inst, routes, base, a, b, x, y)} ::
      !SwapImproves(inst, routes, base, a, b, x, y)
  }

  /** routes1 is routes0 after the first improving exchange, between r1 and r2. */
  ghost predicate SwapTaken(inst: Instance, routes0: seq<Route>, base: int, r1: int, r2: int, routes1: seq<Route>)
    requires inst.Valid() && AllInRange(inst, routes0)
  {
    exists p1, p2 :: SwapImproves(inst, routes0, base, r1, r2, p1, p2)
      && NoSwapBefore(inst, routes0, base, r1, r2, p1, p2) && routes1 == SwapNodes(routes0, r1, p1, r2, p2)
  }

  /** An improving exchange keeps the nodes, the route ends and feasibility of
      the route set, touches no other route, and brings the total cost below base. */
  lemma SwapEffect(inst: Instance, routes: seq<Route>, base: int, r1: int, r2: int, p1: int, p2: int)
    requires inst.Valid() && AllInRange(inst, routes) && SwapImproves(inst, routes, base, r1, r2, p1, p2)
    ensures AllInRange(inst, SwapNodes(routes, r1, p1, r2, p2))
    ensures SolutionCost(inst, SwapNodes(routes, r1, p1, r2, p2)) < base
    ensures forall k :: 0 <= k < |routes| && k != r1 && k != r2 ==> SwapNodes(routes, r1, p1, r2, p2)[k] == routes[k]
    ensures Nodes(SwapNodes(routes, r1, p1, r2, p2)) == Nodes(routes)
    ensures Shaped(inst, routes) ==> SameEnds(routes, SwapNodes(routes, r1, p1, r2, p2))
    ensures AllFeasible(inst, routes) ==> AllFeasible(inst, SwapNodes(routes, r1, p1, r2, p2))
  {
    SwapApplyInRange(inst, routes, r1, p1, r2, p2);
    SwapMultiset(routes, r1, p1, r2, p2);
    if Shaped(inst, routes) {
      SwapEnds(routes, r1, p1, r2, p2);
    }
    if AllFeasible(inst, routes) {
      SwapFeasible(inst, routes, r1, p1, r2, p2);
    }
    SwapNodesAt(routes, r1, p1, r2, p2);
  }

  lemma SwapMultiset(routes: seq<Route>, r1: int, p1: int, r2: int, p2: int)
    requires 0 <= r1 < |routes| && 0 <= r2 < |routes| && r1 != r2
    requires 0 <= p1 < |routes[r1]| && 0 <= p2 < |routes[r2]|
    ensures Nodes(SwapNodes(routes, r1, p1, r2, p2)) == Nodes(routes)
  {
    var a := routes[r1][p1 := routes[r2][p2]];
    var b := routes[r2][p2 := routes[r1][p1]];
    assert multiset(a) + multiset(b) == multiset(routes[r1]) + multiset(routes[r2]);
    NodesUpdate2(routes, r1, a, r2, b);
  }

  lemma SwapEnds(routes: seq<Route>, r1: int, p1: int, r2: int, p2: int)
    requires forall q :: 0 <= q < |routes| ==> |routes[q]| >= 1
    requires 0 <= r1 < |routes| && 0 <= r2 < |routes| && r1 != r2
    requires 1 <= p1 < |routes[r1]| - 1 && 1 <= p2 < |routes[r2]| - 1
    ensures SameEnds(routes, SwapNodes(routes, r1, p1, r2, p2))
  {
    var rs := SwapNodes(routes, r1, p1, r2, p2);
    SwapNodesAt(routes, r1, p1, r2, p2);
    UpdateKeepsEnds(routes[r1], p1, routes[r2][p2]);
    UpdateKeepsEnds(routes[r2], p2, routes[r1][p1]);
    forall k | 0 <= k < |routes|
      ensures |rs[k]| >= 1 && rs[k][0] == routes[k][0] && rs[k][|rs[k]| - 1] == routes[k][|routes[k]| - 1]
    {
      if k != r1 && k != r2 {
        assert rs[k] == routes[k];
      }
    }
  }

  lemma SwapFeasible(inst: Instance, routes: seq<Route>, r1: int, p1: int, r2: int, p2: int)
    requires AllFeasible(inst, routes)
    requires 0 <= r1 < |routes| && 0 <= r2 < |routes| && r1 != r2
    requires 0 <= p1 < |routes[r1]| && 0 <= p2 < |routes[r2]|
    requires Feasible(inst, SwapNodes(routes, r1, p1, r2, p2)[r1]) && Feasible(inst, SwapNodes(routes, r1, p1, r2, p2)[r2])
    ensures AllFeasible(inst, SwapNodes(routes, r1, p1, r2, p2))
  {
    var rs := SwapNodes(routes, r1, p1, r2, p2);
    SwapNodesAt(routes, r1, p1, r2, p2);
    forall k | 0 <= k < |rs| ensures Feasible(inst, rs[k]) {
      if k != r1 && k != r2 {
        assert rs[k] == routes[k];
      }
    }
  }

  // Moving the cut of the swap scan past exchanges that cannot improve.

  lemma SwapStep(inst: Instance, routes: seq<Route>, base: int, r1: int, r2: int, p1: int, p2: int)
    requires inst.Valid() && AllInRange(inst, routes)
    requires NoSwapBefore(inst, routes, base, r1, r2, p1, p2) && !SwapImproves(inst, routes, base, r1, r2, p1, p2)
    ensures NoSwapBefore(inst, routes, base, r1, r2, p1, p2 + 1)
  {
    forall a, b, x, y | Lex4(a, b, x, y, r1, r2, p1, p2 + 1)
      ensures !SwapImproves(inst, routes, base, a, b, x, y)
    {
      if !Lex4(a, b, x, y, r1, r2, p1, p2) {
        assert a == r1 && b == r2 && x == p1 && y == p2;
      }
    }
  }

  lemma SwapRowStart(inst: Instance, routes: seq<Route>, base: int, r1: int, r2: int, p1: int)
    requires inst.Valid() && AllInRange(inst, routes)
    requires NoSwapBefore(inst, routes, base, r1, r2, p1, 0)
    ensures NoSwapBefore(inst, routes, base, r1, r2, p1, 1)
  {
    forall a, b, x, y | Lex4(a, b, x, y, r1, r2, p1, 1)
      ensures !SwapImproves(inst, routes, base, a, b, x, y)
    {
      if !Lex4(a, b, x, y, r1, r2, p1, 0) {
        assert y == 0;
      }
    }
  }

  lemma SwapRowEnd(inst: Instance, routes: seq<Route>, base: int, r1: int, r2: int, p1: int)
    requires inst.Valid() && AllInRange(inst, routes) && 0 <= r2 < |routes|
    requires NoSwapBefore(inst, routes, base, r1, r2, p1, |routes[r2]| - 1)
    ensures NoSwapBefore(inst, routes, base, r1, r2, p1 + 1, 0)
  {
    forall a, b, x, y | Lex4(a, b, x, y, r1, r2, p1 + 1, 0)
      ensures !SwapImproves(inst, routes, base, a, b, x, y)
    {
      if !Lex4(a, b, x, y, r1, r2, p1, |routes[r2]| - 1) {
        assert a == r1 && b == r2 && ((x == p1 && y >= |routes[r2]| - 1) || y < 0);
      }
    }
  }

  lemma SwapPairStart(inst: Instance, routes: seq<Route>, base: int, r1: int, r2: int)
    requires inst.Valid() && AllInRange(inst, routes)
    requires NoSwapBefore(inst, routes, base, r1, r2, 0, 0)
    ensures NoSwapBefore(inst, routes, base, r1, r2, 1, 0)
  {
    forall a, b, x, y | Lex4(a, b, x, y, r1, r2, 1, 0)
      ensures !SwapImproves(inst, routes, base, a, b, x, y)
    {
      if !Lex4(a, b, x, y, r1, r2, 0, 0) {
        assert x == 0 || y < 0;
      }
    }
  }

  /** The pair (r1, r2) has no improving exchange from row p1 on when
      p1 >= size of r1 - 1, or when route r2 has at most two nodes. */
  lemma SwapPairEnd(inst: Instance, routes: seq<Route>, base: int, r1: int, r2: int, p1: int)
    requires inst.Valid() && AllInRange(inst, routes) && 0 <= r1 < |routes| && 0 <= r2 < |routes|
    requires p1 >= |routes[r1]| - 1 || (p1 <= 0 && |routes[r2]| <= 2)
    requires NoSwapBefore(inst, routes, base, r1, r2, p1, 0)
    ensures NoSwapBefore(inst, routes, base, r1, r2 + 1, 0, 0)
  {
    forall a, b, x, y | Lex4(a, b, x, y, r1, r2 + 1, 0, 0)
      ensures !SwapImproves(inst, routes, base, a, b, x, y)
    {
      if !Lex4(a, b, x, y, r1, r2, p1, 0) {
        assert a == r1 && ((b == r2 && x >= p1) || x <= 0);
      }
    }
  }

  lemma SwapFirstStart(inst: Instance, routes: seq<Route>, base: int, r1: int)
    requires inst.Valid() && AllInRange(inst, routes)
    requires NoSwapBefore(inst, routes, base, r1, 0, 0, 0)
    ensures NoSwapBefore(inst, routes, base, r1, r1 + 1, 0, 0)
  {
    forall a, b, x, y | Lex4(a, b, x, y, r1, r1 + 1, 0, 0)
      ensures !SwapImproves(inst, routes, base, a, b, x, y)
    {
      if !Lex4(a, b, x, y, r1, 0, 0, 0) {
        assert a == r1 && (b <= r1 || x < 0 || (x == 0 && y < 0));
      }
    }
  }

  /** Route r1 takes part in no improving exchange as first route when every
      second route has been tried, or when it has at most two nodes. */
  lemma SwapFirstEnd(inst: Instance, routes: seq<Route>, base: int, r1: int, r2: int)
    requires inst.Valid() && AllInRange(inst, routes) && 0 <= r1 < |routes|
    requires r2 >= |routes| || (r2 <= 0 && |routes[r1]| <= 2)
    requires NoSwapBefore(inst, routes, base, r1, r2, 0, 0)
    ensures NoSwapBefore(inst, routes, base, r1 + 1, 0, 0, 0)
  {
    forall a, b, x, y | Lex4(a, b, x, y, r1 + 1, 0, 0, 0)
      ensures !SwapImproves(inst, routes, base, a, b, x, y)
    {
      if !Lex4(a, b, x, y, r1, r2, 0, 0) {
        assert (a == r1 && b >= r2) || b <= 0;
      }
    }
  }

  /** One trial: exchange the two nodes in place, keep it if both routes are
      feasible and the total cost is below base, else exchange them back. */
  method SwapTry(inst: Instance, sol: Solution, base: int, r1: int, r2: int, p1: int, p2: int) returns (improved: bool)
    requires inst.Valid() && AllInRange(inst, sol.routes)
    requires 0 <= r1 < r2 < |sol.routes| && |sol.routes[r1]| > 2 && |sol.routes[r2]| > 2
    requires 1 <= p1 < |sol.routes[r1]| - 1 && 1 <= p2 < |sol.routes[r2]| - 1
    modifies sol
    ensures improved == SwapImproves(inst, old(sol.routes), base, r1, r2, p1, p2)
    ensures improved ==> sol.routes == SwapNodes(old(sol.routes), r1, p1, r2, p2)
    ensures improved ==> AllInRange(inst, sol.routes) && sol.totalCost == SolutionCost(inst, sol.routes)
    ensures !improved ==> sol.routes == old(sol.routes) && sol.totalCost == old(sol.totalCost)
  {
    SwapNodesAt(sol.routes, r1, p1, r2, p2);
    SwapApplyInRange(inst, sol.routes, r1, p1, r2, p2);
    sol.routes := SwapNodes(sol.routes, r1, p1, r2, p2);
    var info1 := CheckRouteFeasible(inst, sol.routes[r1]);
    var info2 := CheckRouteFeasible(inst, sol.routes[r2]);
    if info1.ok && info2.ok {
      var newCost := ComputeSolutionCost(inst, sol.routes);
      if newCost < base {
        sol.totalCost := newCost;
        return true;
      }
    }
    sol.routes := SwapNodes(sol.routes, r1, p1, r2, p2);
    return false;
  }

  /** All positions p2 of route r2 against position p1 of route r1. */
  method SwapRow(inst: Instance, sol: Solution, base: int, r1: int, r2: int, p1: int) returns (improved: bool)
    requires inst.Valid() && AllInRange(inst, sol.routes)
    requires 0 <= r1 < r2 < |sol.routes| && |sol.routes[r1]| > 2 && |sol.routes[r2]| > 2
    requires 1 <= p1 < |sol.routes[r1]| - 1
    requires NoSwapBefore(inst, sol.routes, base, r1, r2, p1, 0)
    modifies sol
    ensures !improved ==> sol.routes == old(sol.routes) && sol.totalCost == old(sol.totalCost)
    ensures !improved ==> NoSwapBefore(inst, old(sol.routes), base, r1, r2, p1 + 1, 0)
    ensures improved ==> SwapTaken(inst, old(sol.routes), base, r1, r2, sol.routes)
    ensures improved ==> AllInRange(inst, sol.routes) && sol.totalCost == SolutionCost(inst, sol.routes)
  {
    ghost var routes0 := sol.routes;
    SwapRowStart(inst, routes0, base, r1, r2, p1);
    var p2 := 1;
    while p2 < |sol.routes[r2]| - 1
      invariant 1 <= p2 <= |routes0[r2]| - 1
      invariant sol.routes == routes0 && sol.totalCost == old(sol.totalCost)
      invariant NoSwapBefore(inst, routes0, base, r1, r2, p1, p2)
    {
      improved := SwapTry(inst, sol, base, r1, r2, p1, p2);
      if improved {
        assert SwapImproves(inst, routes0, base, r1, r2, p1, p2) && NoSwapBefore(inst, routes0, base, r1, r2, p1, p2);
        return;
      }
      SwapStep(inst, routes0, base, r1, r2, p1, p2);
      p2 := p2 + 1;
    }
    SwapRowEnd(inst, routes0, base, r1, r2, p1);
    improved := false;
  }

  /** All exchanges between routes r1 < r2. */
  method SwapPair(inst: Instance, sol: Solution, base: int, r1: int, r2: int) returns (improved: bool)
    requires inst.Valid() && AllInRange(inst, sol.routes)
    requires 0 <= r1 < r2 < |sol.routes| && |sol.routes[r1]| > 2 && |sol.routes[r2]| > 2
    requires NoSwapBefore(inst, sol.routes, base, r1, r2, 0, 0)
    modifies sol
    ensures !improved ==> sol.routes == old(sol.routes) && sol.totalCost == old(sol.totalCost)
    ensures !improved ==> NoSwapBefore(inst, old(sol.routes), base, r1, r2 + 1, 0, 0)
    ensures improved ==> SwapTaken(inst, old(sol.routes), base, r1, r2, sol.routes)
    ensures improved ==> AllInRange(inst, sol.routes) && sol.totalCost == SolutionCost(inst, sol.routes)
  {
    ghost var routes0 := sol.routes;
    SwapPairStart(inst, routes0, base, r1, r2);
    var p1 := 1;
    while p1 < |sol.routes[r1]| - 1
      invariant 1 <= p1 <= |routes0[r1]| - 1
      invariant sol.routes == routes0 && sol.totalCost == old(sol.totalCost)
      invariant NoSwapBefore(inst, routes0, base, r1, r2, p1, 0)
    {
      improved := SwapRow(inst, sol, base, r1, r2, p1);
      if improved {
        return;
      }
      p1 := p1 + 1;
    }
    SwapPairEnd(inst, routes0, base, r1, r2, p1);
    improved := false;
  }

  /** All exchanges with route r1 as the first route. */
  method SwapFirst(inst: Instance, sol: Solution, base: int, r1: int) returns (improved: bool, r2: int)
    requires inst.Valid() && AllInRange(inst, sol.routes)
    requires 0 <= r1 < |sol.routes| && |sol.routes[r1]| > 2
    requires NoSwapBefore(inst, sol.routes, base, r1, 0, 0, 0)
    modifies sol
    ensures !improved ==> sol.routes == old(sol.routes) && sol.totalCost == old(sol.totalCost)
    ensures !improved ==> NoSwapBefore(inst, old(sol.routes), base, r1 + 1, 0, 0, 0)
    ensures improved ==> SwapTaken(inst, old(sol.routes), base, r1, r2, sol.routes)
    ensures improved ==> AllInRange(inst, sol.routes) && sol.totalCost == SolutionCost(inst, sol.routes)
  {
    ghost var routes0 := sol.routes;
    SwapFirstStart(inst, routes0, base, r1);
    r2 := r1 + 1;
    while r2 < |sol.routes|
      invariant r1 + 1 <= r2 <= |routes0|
      invariant sol.routes == routes0 && sol.totalCost == old(sol.totalCost)
      invariant NoSwapBefore(inst, routes0, base, r1, r2, 0, 0)
    {
      if |sol.routes[r2]| > 2 {
        improved := SwapPair(inst, sol, base, r1, r2);
        if improved {
          return;
        }
      } else {
        SwapPairEnd(inst, routes0, base, r1, r2, 0);
      }
      r2 := r2 + 1;
    }
    SwapFirstEnd(inst, routes0, base, r1, r2);
    improved := false;
  }

  /** The swap scan against base, the solution's recorded total cost on entry:
      the first improving exchange is kept and true returned with its two routes;
      otherwise nothing changes and no exchange improves. */
  method SwapSearch(inst: Instance, sol: Solution) returns (improved: bool, r1: int, r2: int)
    requires inst.Valid() && AllInRange(inst, sol.routes)
    modifies sol
    ensures !improved ==> sol.routes == old(sol.routes) && sol.totalCost == old(sol.totalCost)
    ensures !improved ==> SwapStuck(inst, old(sol.routes), old(sol.totalCost))
    ensures improved ==> SwapTaken(inst, old(sol.routes), old(sol.totalCost), r1, r2, sol.routes)
    ensures improved ==> AllInRange(inst, sol.routes) && sol.totalCost == SolutionCost(inst, sol.routes)
  {
    ghost var routes0 := sol.routes;
    var base := sol.totalCost;
    r1, r2 := 0, 0;
    while r1 < |sol.routes|
      invariant 0 <= r1 <= |sol.routes|
      invariant sol.routes == routes0 && sol.totalCost == old(sol.totalCost)
      invariant NoSwapBefore(inst, routes0, base, r1, 0, 0, 0)
    {
      if |sol.routes[r1]| > 2 {
        improved, r2 := SwapFirst(inst, sol, base, r1);
        if improved {
          return;
        }
      } else {
        SwapFirstEnd(inst, routes0, base, r1, 0);
      }
      r1 := r1 + 1;
    }
    improved := false;
  }

  // ---------------------------------------------------------------------------
  // What an applied move keeps, for the controllers that chain them.

  /** routes1 comes from routes0 by moving nodes around inside the routes: same
      route count, node ids only, the same nodes, the same route ends on a shaped
      route set, and no route made infeasible. */
  ghost predicate Evolves(inst: Instance, routes0: seq<Route>, routes1: seq<Route>)
  {
    && |routes1| == |routes0| && AllInRange(inst, routes1)
    && Nodes(routes1) == Nodes(routes0)
    && (Shaped(inst, routes0) ==> Shaped(inst, routes1) && SameEnds(routes0, routes1))
    && (AllFeasible(inst, routes0) ==> AllFeasible(inst, routes1))
  }

  /** ... and every route outside touched is as it was. */
  ghost predicate Changes(inst: Instance, routes0: seq<Route>, routes1: seq<Route>, touched: set<int>)
  {
    && Evolves(inst, routes0, routes1)
    && forall k :: 0 <= k < |routes0| && k !in touched ==> routes1[k] == routes0[k]
  }

  lemma EvolvesRefl(inst: Instance, routes: seq<Route>)
    requires AllInRange(inst, routes)
    ensures Evolves(inst, routes, routes)
  {
  }

  lemma EvolvesTrans(inst: Instance, a: seq<Route>, b: seq<Route>, c: seq<Route>)
    requires Evolves(inst, a, b) && Evolves(inst, b, c)
    ensures Evolves(inst, a, c)
  {
  }

  lemma ChangesRefl(inst: Instance, routes: seq<Route>, touched: set<int>)
    requires AllInRange(inst, routes)
    ensures Changes(inst, routes, routes, touched)
  {
  }

  lemma ChangesTrans(inst: Instance, a: seq<Route>, b: seq<Route>, c: seq<Route>, touched: set<int>)
    requires Changes(inst, a, b, touched) && Changes(inst, b, c, touched)
    ensures Changes(inst, a, c, touched)
  {
  }

  lemma ShapedAfter(inst: Instance, routes0: seq<Route>, routes1: seq<Route>)
    requires AllInRange(inst, routes1) && SameEnds(routes0, routes1)
    ensures Shaped(inst, routes1)
  {
  }

  /** The first improving 2-opt move changes route r, in scope, only, and lowers
      the total cost. */
  lemma TwoOptChanges(inst: Instance, routes: seq<Route>, r: int, i: int, j: int)
    requires inst.Valid() && AllInRange(inst, routes) && TwoOptImproves(inst, routes, r, i, j)
    ensures Changes(inst, routes, TwoOptApply(routes, r, i, j), {r})
    ensures SolutionCost(inst, TwoOptApply(routes, r, i, j)) < SolutionCost(inst, routes)
  {
    TwoOptEffect(inst, routes, r, i, j);
    if Shaped(inst, routes) {
      ShapedAfter(inst, routes, TwoOptApply(routes, r, i, j));
    }
  }

  lemma TwoOptTakenChanges(inst: Instance, routes0: seq<Route>, scope: Scope, r: int, routes1: seq<Route>)
    requires inst.Valid() && AllInRange(inst, routes0) && TwoOptTaken(inst, routes0, scope, r, routes1)
    ensures InScope(scope, r) && Changes(inst, routes0, routes1, {r})
    ensures SolutionCost(inst, routes1) < SolutionCost(inst, routes0)
  {
    var i, j :| TwoOptImproves(inst, routes0, r, i, j) && InScope(scope, r) && routes1 == TwoOptApply(routes0, r, i, j);
    TwoOptChanges(inst, routes0, r, i, j);
  }

  lemma OrOptChanges(inst: Instance, routes: seq<Route>, r: int, s: int, p: int)
    requires inst.Valid() && AllInRange(inst, routes) && OrOptImproves(inst, routes, r, s, p)
    ensures Changes(inst, routes, OrOptApply(routes, r, s, p), {r})
    ensures SolutionCost(inst, OrOptApply(routes, r, s, p)) < SolutionCost(inst, routes)
  {
    OrOptEffect(inst, routes, r, s, p);
    if Shaped(inst, routes) {
      ShapedAfter(inst, routes, OrOptApply(routes, r, s, p));
    }
  }

  lemma OrOptTakenChanges(inst: Instance, routes0: seq<Route>, scope: Scope, r: int, routes1: seq<Route>)
    requires inst.Valid() && AllInRange(inst, routes0) && OrOptTaken(inst, routes0, scope, r, routes1)
    ensures InScope(scope, r) && Changes(inst, routes0, routes1, {r})
    ensures SolutionCost(inst, routes1) < SolutionCost(inst, routes0)
  {
    var s, p :| OrOptImproves(inst, routes0, r, s, p) && InScope(scope, r) && routes1 == OrOptApply(routes0, r, s, p);
    OrOptChanges(inst, routes0, r, s, p);
  }

  /** The first improving relocation changes routes f and t only and brings the
      total cost below base. */
  lemma RelocateChanges(inst: Instance, routes: seq<Route>, base: int, f: int, c: int, t: int, p: int)
    requires inst.Valid() && AllInRange(inst, routes) && RelocateImproves(inst, routes, base, f, c, t, p)
    ensures Changes(inst, routes, RelocateApply(routes, f, c, t, p), {f, t})
    ensures SolutionCost(inst, RelocateApply(routes, f, c, t, p)) < base
  {
    RelocateEffect(inst, routes, base, f, c, t, p);
    if Shaped(inst, routes) {
      ShapedAfter(inst, routes, RelocateApply(routes, f, c, t, p));
    }
  }

  lemma RelocateTakenChanges(inst: Instance, routes0: seq<Route>, base: int, f: int, t: int, routes1: seq<Route>)
    requires inst.Valid() && AllInRange(inst, routes0) && RelocateTaken(inst, routes0, base, f, t, routes1)
    ensures Changes(inst, routes0, routes1, {f, t})
    ensures SolutionCost(inst, routes1) < base
  {
    var c, p :| RelocateImproves(inst, routes0, base, f, c, t, p) && routes1 == RelocateApply(routes0, f, c, t, p);
    RelocateChanges(inst, routes0, base, f, c, t, p);
  }

  /** The first improving exchange changes routes r1 and r2 only and brings the
      total cost below base. */
  lemma SwapChanges(inst: Instance, routes: seq<Route>, base: int, r1: int, r2: int, p1: int, p2: int)
    requires inst.Valid() && AllInRange(inst, routes) && SwapImproves(inst, routes, base, r1, r2, p1, p2)
    ensures Changes(inst, routes, SwapNodes(routes, r1, p1, r2, p2), {r1, r2})
    ensures SolutionCost(inst, SwapNodes(routes, r1, p1, r2, p2)) < base
  {
    SwapEffect(inst, routes, base, r1, r2, p1, p2);
    if Shaped(inst, routes) {
      ShapedAfter(inst, routes, SwapNodes(routes, r1, p1, r2, p2));
    }
  }

  lemma SwapTakenChanges(inst: Instance, routes0: seq<Route>, base: int, r1: int, r2: int, routes1: seq<Route>)
    requires inst.Valid() && AllInRange(inst, routes0) && SwapTaken(inst, routes0, base, r1, r2, routes1)
    ensures Changes(inst, routes0, routes1, {r1, r2})
    ensures SolutionCost(inst, routes1) < base
  {
    var p1, p2 :| SwapImproves(inst, routes0, base, r1, r2, p1, p2) && routes1 == SwapNodes(routes0, r1, p1, r2, p2);
    SwapChanges(inst, routes0, base, r1, r2, p1, p2);
  }
}
