/** The single relocate move: take the interior node at from_idx of route
    r_from and put it before position to_idx of route r_to, simulated on
    copies, checked for feasibility, priced by its cost delta and written back
    into the route vector only when asked to. */
module Relocate {
  import opened Instance
  import opened Routes
  import opened Costs
  import opened Feasibility

  /** validRouteIndex: r names a route of the vector. */
  predicate ValidRouteIndex(routes: seq<Route>, r: int) {
    0 <= r < |routes|
  }

  /** What TryRelocate reports (its result and delta_cost) and the route vector
      it leaves behind when apply is set. */
  datatype Move = Move(ok: bool, delta: int, routes: seq<Route>)

  /** TryRelocate reads the travel costs of the two routes it names, so their
      node ids must be in range. */
  predicate Readable(inst: Instance, routes: seq<Route>, rFrom: int, rTo: int) {
    (ValidRouteIndex(routes, rFrom) ==> InRange(inst, routes[rFrom])) &&
    (ValidRouteIndex(routes, rTo) ==> InRange(inst, routes[rTo]))
  }

  /** The guards in front of the move: both route indices valid, from_idx an
      interior position, to_idx in [1, size - 1], and the node not the depot. */
  predicate Admissible(routes: seq<Route>, rFrom: int, fromIdx: int, rTo: int, toIdx: int) {
    && ValidRouteIndex(routes, rFrom) && ValidRouteIndex(routes, rTo)
    && 1 <= fromIdx <= |routes[rFrom]| - 2
    && 1 <= toIdx <= |routes[rTo]| - 1
    && routes[rFrom][fromIdx] != 0
  }

  /** Moving a node before itself or before its own successor in the same route. */
  predicate NoOp(rFrom: int, fromIdx: int, rTo: int, toIdx: int) {
    rFrom == rTo && (fromIdx == toIdx || fromIdx + 1 == toIdx)
  }

  /** The route with the node at position i placed before the node that was at
      position j, written by slicing the original route. */
  function Moved(route: Route, i: int, j: int): (r: Route)
    requires 0 <= i < |route| && 0 <= j <= |route|
    ensures |r| == |route|
  {
    if i < j then route[..i] + route[i + 1..j] + [route[i]] + route[j..]
    else route[..j] + [route[i]] + route[j..i] + route[i + 1..]
  }

  /** TryRelocate on a copy of the route vector: the outcome, the delta and
      the routes that apply would write back. */
  function Relocation(inst: Instance, routes: seq<Route>, rFrom: int, fromIdx: int, rTo: int, toIdx: int): (mv: Move)
    requires inst.Valid() && Readable(inst, routes, rFrom, rTo)
    ensures |mv.routes| == |routes|
    ensures !mv.ok ==> mv.delta == 0 && mv.routes == routes
  {
    if !ValidRouteIndex(routes, rFrom) || !ValidRouteIndex(routes, rTo) then Move(false, 0, routes)
    else if fromIdx < 1 || fromIdx > |routes[rFrom]| - 2 then Move(false, 0, routes)
    else if toIdx < 1 || toIdx > |routes[rTo]| - 1 then Move(false, 0, routes)
    else
      var node := routes[rFrom][fromIdx];
      if node == 0 then Move(false, 0, routes)
      else if rFrom == rTo then
        if fromIdx == toIdx || fromIdx + 1 == toIdx then Move(true, 0, routes)
        else
          var sim := RemoveAt(routes[rFrom], fromIdx);
          var insertPos := if fromIdx < toIdx then toIdx - 1 else toIdx;
          if insertPos < 1 || insertPos > |sim| - 1 then Move(false, 0, routes)
          else
            var sim' := InsertAt(sim, insertPos, node);
            if !Feasible(inst, sim') then Move(false, 0, routes)
            else
              FeasibleIsWellFormed(inst, sim');
              Move(true, RouteCost(inst, sim') - RouteCost(inst, routes[rFrom]), routes[rFrom := sim'])
      else
        var simFrom := RemoveAt(routes[rFrom], fromIdx);
        if toIdx < 0 || toIdx > |routes[rTo]| then Move(false, 0, routes)
        else
          var simTo := InsertAt(routes[rTo], toIdx, node);
          if !Feasible(inst, simFrom) || !Feasible(inst, simTo) then Move(false, 0, routes)
          else
            FeasibleIsWellFormed(inst, simFrom);
            FeasibleIsWellFormed(inst, simTo);
            Move(true, (RouteCost(inst, simFrom) + RouteCost(inst, simTo)) -
                       (RouteCost(inst, routes[rFrom]) + RouteCost(inst, routes[rTo])),
                 routes[rFrom := simFrom][rTo := simTo])
  }

  /** TryRelocate: simulate on copies, then with apply assign the changed
      routes back into the vector. */
  method TryRelocate(inst: Instance, sol: array<Route>, rFrom: int, fromIdx: int, rTo: int, toIdx: int, apply: bool)
      returns (ok: bool, delta: int)
    requires inst.Valid() && Readable(inst, sol[..], rFrom, rTo)
    modifies sol
    ensures ok == Relocation(inst, old(sol[..]), rFrom, fromIdx, rTo, toIdx).ok
    ensures delta == Relocation(inst, old(sol[..]), rFrom, fromIdx, rTo, toIdx).delta
    ensures sol[..] == if apply then Relocation(inst, old(sol[..]), rFrom, fromIdx, rTo, toIdx).routes else old(sol[..])
  {
    delta := 0;
    if !(0 <= rFrom < sol.Length) || !(0 <= rTo < sol.Length) {
      return false, delta;
    }
    var sizeFrom := |sol[rFrom]|;
    var sizeTo := |sol[rTo]|;
    if fromIdx < 1 || fromIdx > sizeFrom - 2 {
      return false, delta;
    }
    if toIdx < 1 || toIdx > sizeTo - 1 {
      return false, delta;
    }
    var node := sol[rFrom][fromIdx];
    if node == 0 {
      return false, delta;
    }
    if rFrom == rTo {
      ok, delta := TryRelocateWithin(inst, sol, rFrom, fromIdx, rTo, toIdx, apply);
    } else {
      ok, delta := TryRelocateBetween(inst, sol, rFrom, fromIdx, rTo, toIdx, apply);
    }
  }

  /** The branch of TryRelocate that moves a node within its own route. */
  method TryRelocateWithin(inst: Instance, sol: array<Route>, rFrom: int, fromIdx: int, rTo: int, toIdx: int, apply: bool)
      returns (ok: bool, delta: int)
    requires inst.Valid() && Readable(inst, sol[..], rFrom, rTo)
    requires 0 <= rFrom < sol.Length && 0 <= rTo < sol.Length
    requires 1 <= fromIdx <= |sol[rFrom]| - 2 && 1 <= toIdx <= |sol[rTo]| - 1 && sol[rFrom][fromIdx] != 0
    requires rFrom == rTo
    modifies sol
    ensures ok == Relocation(inst, old(sol[..]), rFrom, fromIdx, rTo, toIdx).ok
    ensures delta == Relocation(inst, old(sol[..]), rFrom, fromIdx, rTo, toIdx).delta
    ensures sol[..] == if apply then Relocation(inst, old(sol[..]), rFrom, fromIdx, rTo, toIdx).routes else old(sol[..])
  {
    ghost var routes := sol[..];
    ghost var mv := Relocation(inst, routes, rFrom, fromIdx, rTo, toIdx);
    delta := 0;
    var node := sol[rFrom][fromIdx];
    if fromIdx == toIdx || fromIdx + 1 == toIdx {
      assert mv == Move(true, 0, routes);
      return true, 0;
    }
    var simRoute := sol[rFrom];
    var oldCost := ComputeRouteCost(inst, simRoute);
    simRoute := RemoveAt(simRoute, fromIdx);
    var insertPos := toIdx;
    if fromIdx < toIdx {
      insertPos := toIdx - 1;
    }
    if insertPos < 1 || insertPos > |simRoute| - 1 {
      return false, delta;
    }
    simRoute := InsertAt(simRoute, insertPos, node);
    WithinSimulation(inst, routes, rFrom, fromIdx, toIdx, simRoute);
    var info := CheckRouteFeasible(inst, simRoute);
    if !info.ok {
      return false, delta;
    }
    var newCost := ComputeRouteCost(inst, simRoute);
    delta := newCost - oldCost;
    if apply {
      sol[rFrom] := simRoute;
      assert sol[..] == routes[rFrom := simRoute];
    }
    return true, delta;
  }

  /** The relocation within one route, read off the simulated route. */
  lemma WithinSimulation(inst: Instance, routes: seq<Route>, r: int, fromIdx: int, toIdx: int, sim: Route)
    requires inst.Valid() && Readable(inst, routes, r, r)
    requires Admissible(routes, r, fromIdx, r, toIdx) && !NoOp(r, fromIdx, r, toIdx)
    requires sim == InsertAt(RemoveAt(routes[r], fromIdx), if fromIdx < toIdx then toIdx - 1 else toIdx, routes[r][fromIdx])
    ensures Feasible(inst, sim) ==>
      && InRange(inst, sim)
      && Relocation(inst, routes, r, fromIdx, r, toIdx) ==
         Move(true, RouteCost(inst, sim) - RouteCost(inst, routes[r]), routes[r := sim])
    ensures !Feasible(inst, sim) ==> Relocation(inst, routes, r, fromIdx, r, toIdx) == Move(false, 0, routes)
  {
    if Feasible(inst, sim) {
      FeasibleIsWellFormed(inst, sim);
    }
  }

  /** The branch of TryRelocate that moves a node to another route. */
  method TryRelocateBetween(inst: Instance, sol: array<Route>, rFrom: int, fromIdx: int, rTo: int, toIdx: int, apply: bool)
      returns (ok: bool, delta: int)
    requires inst.Valid() && Readable(inst, sol[..], rFrom, rTo)
    requires 0 <= rFrom < sol.Length && 0 <= rTo < sol.Length
    requires 1 <= fromIdx <= |sol[rFrom]| - 2 && 1 <= toIdx <= |sol[rTo]| - 1 && sol[rFrom][fromIdx] != 0
    requires rFrom != rTo
    modifies sol
    ensures ok == Relocation(inst, old(sol[..]), rFrom, fromIdx, rTo, toIdx).ok
    ensures delta == Relocation(inst, old(sol[..]), rFrom, fromIdx, rTo, toIdx).delta
    ensures sol[..] == if apply then Relocation(inst, old(sol[..]), rFrom, fromIdx, rTo, toIdx).routes else old(sol[..])
  {
    delta := 0;
    var node := sol[rFrom][fromIdx];
    var simFrom := sol[rFrom];
    var simTo := sol[rTo];
    var oldCostFrom := ComputeRouteCost(inst, simFrom);
    var oldCostTo := ComputeRouteCost(inst, simTo);
    simFrom := RemoveAt(simFrom, fromIdx);
    if toIdx < 0 || toIdx > |simTo| {
      return false, delta;
    }
    simTo := InsertAt(simTo, toIdx, node);
    var infoFrom := CheckRouteFeasible(inst, simFrom);
    var infoTo := CheckRouteFeasible(inst, simTo);
    if !infoFrom.ok || !infoTo.ok {
      return false, delta;
    }
    FeasibleIsWellFormed(inst, simFrom);
    FeasibleIsWellFormed(inst, simTo);
    var newCostFrom := ComputeRouteCost(inst, simFrom);
    var newCostTo := ComputeRouteCost(inst, simTo);
    delta := (newCostFrom + newCostTo) - (oldCostFrom + oldCostTo);
    if apply {
      sol[rFrom] := simFrom;
      sol[rTo] := simTo;
    }
    return true, delta;
  }

  // What the move promises.

  /** An invalid route index, a position outside its range or the depot as the
      selected node: false, delta 0, nothing changed. */
  lemma RelocationRejects(inst: Instance, routes: seq<Route>, rFrom: int, fromIdx: int, rTo: int, toIdx: int)
    requires inst.Valid() && Readable(inst, routes, rFrom, rTo)
    requires !Admissible(routes, rFrom, fromIdx, rTo, toIdx)
    ensures Relocation(inst, routes, rFrom, fromIdx, rTo, toIdx) == Move(false, 0, routes)
  {
  }

  /** Moving a node before itself or its successor is accepted at no cost and
      changes nothing, whether or not the route is feasible. */
  lemma RelocationNoOp(inst: Instance, routes: seq<Route>, rFrom: int, fromIdx: int, rTo: int, toIdx: int)
    requires inst.Valid() && Readable(inst, routes, rFrom, rTo)
    requires Admissible(routes, rFrom, fromIdx, rTo, toIdx) && NoOp(rFrom, fromIdx, rTo, toIdx)
    ensures Relocation(inst, routes, rFrom, fromIdx, rTo, toIdx) == Move(true, 0, routes)
    ensures Moved(routes[rFrom], fromIdx, toIdx) == routes[rFrom]
  {
    var route := routes[rFrom];
    if fromIdx == toIdx {
      assert route == route[..toIdx] + [route[fromIdx]] + route[toIdx..fromIdx] + route[fromIdx + 1..];
    } else {
      assert route == route[..fromIdx] + route[fromIdx + 1..toIdx] + [route[fromIdx]] + route[toIdx..];
    }
  }

  /** Erasing at i and inserting the node again at j - 1 (when i < j) or at j
      (otherwise) is the same as placing it before old position j. */
  lemma EraseInsertIsMoved(route: Route, i: int, j: int)
    requires 0 <= i < |route| && 0 <= j <= |route| && j != i
    ensures 0 <= (if i < j then j - 1 else j) <= |route| - 1
    ensures InsertAt(RemoveAt(route, i), if i < j then j - 1 else j, route[i]) == Moved(route, i, j)
  {
    var s := RemoveAt(route, i);
    if i < j {
      assert s[..j - 1] == route[..i] + route[i + 1..j];
      assert s[j - 1..] == route[j..];
    } else {
      assert s[..j] == route[..j];
      assert s[j..] == route[j..i] + route[i + 1..];
    }
  }

  /** The same-route move: accepted exactly when the moved route is feasible
      (the position check after the erase never fails), and then the route
      becomes that moved route and delta is its change of cost. */
  lemma RelocationIntra(inst: Instance, routes: seq<Route>, r: int, fromIdx: int, toIdx: int)
    requires inst.Valid() && Readable(inst, routes, r, r)
    requires Admissible(routes, r, fromIdx, r, toIdx) && !NoOp(r, fromIdx, r, toIdx)
    ensures Relocation(inst, routes, r, fromIdx, r, toIdx).ok <==> Feasible(inst, Moved(routes[r], fromIdx, toIdx))
    ensures Relocation(inst, routes, r, fromIdx, r, toIdx).ok ==>
      InRange(inst, Moved(routes[r], fromIdx, toIdx)) &&
      Relocation(inst, routes, r, fromIdx, r, toIdx) ==
        Move(true, RouteCost(inst, Moved(routes[r], fromIdx, toIdx)) - RouteCost(inst, routes[r]),
             routes[r := Moved(routes[r], fromIdx, toIdx)])
  {
    EraseInsertIsMoved(routes[r], fromIdx, toIdx);
    WithinSimulation(inst, routes, r, fromIdx, toIdx, Moved(routes[r], fromIdx, toIdx));
  }

  /** The move between two routes: accepted exactly when both changed routes
      are feasible (the position check after the erase never fails); then the
      source route loses exactly the node, the target gains it at to_idx, and
      delta is the change of the two route costs. */
  lemma RelocationInter(inst: Instance, routes: seq<Route>, rFrom: int, fromIdx: int, rTo: int, toIdx: int)
    requires inst.Valid() && Readable(inst, routes, rFrom, rTo)
    requires Admissible(routes, rFrom, fromIdx, rTo, toIdx) && rFrom != rTo
    ensures var mv := Relocation(inst, routes, rFrom, fromIdx, rTo, toIdx);
      mv.ok <==> Feasible(inst, RemoveAt(routes[rFrom], fromIdx)) &&
                 Feasible(inst, InsertAt(routes[rTo], toIdx, routes[rFrom][fromIdx]))
    ensures var mv := Relocation(inst, routes, rFrom, fromIdx, rTo, toIdx);
      mv.ok ==>
        && multiset(mv.routes[rFrom]) + multiset{routes[rFrom][fromIdx]} == multiset(routes[rFrom])
        && mv.routes[rFrom] == RemoveAt(routes[rFrom], fromIdx)
        && mv.routes[rTo][toIdx] == routes[rFrom][fromIdx]
        && RemoveAt(mv.routes[rTo], toIdx) == routes[rTo]
  {
    var mv := Relocation(inst, routes, rFrom, fromIdx, rTo, toIdx);
    if mv.ok {
      RemoveAtNodes(routes[rFrom], fromIdx);
      RemoveInsert(routes[rTo], toIdx, routes[rFrom][fromIdx]);
    }
  }

  /** An accepted move that is not a no-op leaves both touched routes feasible. */
  lemma RelocationFeasible(inst: Instance, routes: seq<Route>, rFrom: int, fromIdx: int, rTo: int, toIdx: int)
    requires inst.Valid() && Readable(inst, routes, rFrom, rTo)
    requires Relocation(inst, routes, rFrom, fromIdx, rTo, toIdx).ok && !NoOp(rFrom, fromIdx, rTo, toIdx)
    ensures ValidRouteIndex(routes, rFrom) && ValidRouteIndex(routes, rTo)
    ensures Feasible(inst, Relocation(inst, routes, rFrom, fromIdx, rTo, toIdx).routes[rFrom])
    ensures Feasible(inst, Relocation(inst, routes, rFrom, fromIdx, rTo, toIdx).routes[rTo])
  {
  }

  /** No route other than the two named ones changes. */
  lemma RelocationKeepsOthers(inst: Instance, routes: seq<Route>, rFrom: int, fromIdx: int, rTo: int, toIdx: int, k: int)
    requires inst.Valid() && Readable(inst, routes, rFrom, rTo)
    requires 0 <= k < |routes| && k != rFrom && k != rTo
    ensures Relocation(inst, routes, rFrom, fromIdx, rTo, toIdx).routes[k] == routes[k]
  {
  }

  /** Moving a node inside one route keeps the route's nodes. */
  lemma MovedNodes(route: Route, i: int, j: int)
    requires 0 <= i < |route| && 0 <= j <= |route| && j != i
    ensures multiset(Moved(route, i, j)) == multiset(route)
  {
    var pos := if i < j then j - 1 else j;
    EraseInsertIsMoved(route, i, j);
    RemoveAtNodes(route, i);
    InsertAtNodes(RemoveAt(route, i), pos, route[i]);
  }

  /** The move only shifts one node: the multiset of all nodes is kept. */
  lemma RelocationKeepsNodes(inst: Instance, routes: seq<Route>, rFrom: int, fromIdx: int, rTo: int, toIdx: int)
    requires inst.Valid() && Readable(inst, routes, rFrom, rTo)
    ensures Nodes(Relocation(inst, routes, rFrom, fromIdx, rTo, toIdx).routes) == Nodes(routes)
  {
    var mv := Relocation(inst, routes, rFrom, fromIdx, rTo, toIdx);
    if mv.ok && !NoOp(rFrom, fromIdx, rTo, toIdx) {
      if rFrom == rTo {
        KeepsNodesWithin(inst, routes, rFrom, fromIdx, toIdx);
      } else {
        KeepsNodesBetween(inst, routes, rFrom, fromIdx, rTo, toIdx);
      }
    }
  }

  lemma KeepsNodesWithin(inst: Instance, routes: seq<Route>, r: int, fromIdx: int, toIdx: int)
    requires inst.Valid() && Readable(inst, routes, r, r)
    requires Relocation(inst, routes, r, fromIdx, r, toIdx).ok && !NoOp(r, fromIdx, r, toIdx)
    ensures Nodes(Relocation(inst, routes, r, fromIdx, r, toIdx).routes) == Nodes(routes)
  {
    RelocationIntra(inst, routes, r, fromIdx, toIdx);
    MovedNodes(routes[r], fromIdx, toIdx);
    NodesReplaceSame(routes, r, Moved(routes[r], fromIdx, toIdx));
  }

  lemma KeepsNodesBetween(inst: Instance, routes: seq<Route>, rFrom: int, fromIdx: int, rTo: int, toIdx: int)
    requires inst.Valid() && Readable(inst, routes, rFrom, rTo)
    requires Relocation(inst, routes, rFrom, fromIdx, rTo, toIdx).ok && rFrom != rTo
    ensures Nodes(Relocation(inst, routes, rFrom, fromIdx, rTo, toIdx).routes) == Nodes(routes)
  {
    var node := routes[rFrom][fromIdx];
    var from' := RemoveAt(routes[rFrom], fromIdx);
    var to' := InsertAt(routes[rTo], toIdx, node);
    assert Relocation(inst, routes, rFrom, fromIdx, rTo, toIdx).routes == routes[rFrom := from'][rTo := to'];
    RemoveAtNodes(routes[rFrom], fromIdx);
    InsertAtNodes(routes[rTo], toIdx, node);
    NodesUpdate2(routes, rFrom, from', rTo, to');
  }

  /** delta is exact: the new total cost is the old total plus delta. */
  lemma RelocationDelta(inst: Instance, routes: seq<Route>, rFrom: int, fromIdx: int, rTo: int, toIdx: int)
    requires inst.Valid() && AllInRange(inst, routes)
    ensures AllInRange(inst, Relocation(inst, routes, rFrom, fromIdx, rTo, toIdx).routes)
    ensures SolutionCost(inst, Relocation(inst, routes, rFrom, fromIdx, rTo, toIdx).routes) ==
      SolutionCost(inst, routes) + Relocation(inst, routes, rFrom, fromIdx, rTo, toIdx).delta
  {
    var mv := Relocation(inst, routes, rFrom, fromIdx, rTo, toIdx);
    if mv.ok && !NoOp(rFrom, fromIdx, rTo, toIdx) {
      assert Feasible(inst, mv.routes[rFrom]) && Feasible(inst, mv.routes[rTo]);
      FeasibleIsWellFormed(inst, mv.routes[rFrom]);
      FeasibleIsWellFormed(inst, mv.routes[rTo]);
      if rFrom == rTo {
        SolutionCostUpdate(inst, routes, rFrom, mv.routes[rFrom]);
      } else {
        var mid := routes[rFrom := mv.routes[rFrom]];
        SolutionCostUpdate(inst, routes, rFrom, mv.routes[rFrom]);
        SolutionCostUpdate(inst, mid, rTo, mv.routes[rTo]);
        assert mid[rTo := mv.routes[rTo]] == mv.routes;
      }
    }
  }

  // The structural checks of the relocate test suite, on any instance whose
  // stations 1..9 carry the demands its comments list, with Q = 20.

  predicate TestInstance(inst: Instance) {
    && inst.Valid() && inst.n >= 9 && inst.Q == 20 && |inst.demand| >= 9
    && inst.demand[0] == -1 && inst.demand[1] == -3 && inst.demand[2] == -1 && inst.demand[3] == -3
    && inst.demand[4] == 1 && inst.demand[5] == -4 && inst.demand[6] == -5 && inst.demand[7] == -1
    && inst.demand[8] == -5
  }

  /** One more step of the prefix scan. */
  lemma PrefixStep(inst: Instance, s: seq<int>, x: int)
    ensures DemandSum(inst, s + [x]) == DemandSum(inst, s) + NodeDemand(inst, x)
    ensures MaxPrefix(inst, s + [x]) == Max(MaxPrefix(inst, s), DemandSum(inst, s) + NodeDemand(inst, x))
    ensures MinPrefix(inst, s + [x]) == Min(MinPrefix(inst, s), DemandSum(inst, s) + NodeDemand(inst, x))
  {
    assert (s + [x])[..|s|] == s;
  }

  /** The prefix scan of a one-node interior. */
  lemma Scan1(inst: Instance, a: int)
    ensures MaxPrefix(inst, [a]) == Max(0, NodeDemand(inst, a)) && MinPrefix(inst, [a]) == Min(0, NodeDemand(inst, a))
  {
    PrefixStep(inst, [], a);
    assert [] + [a] == [a];
  }

  /** The prefix scan of a three-node interior. */
  lemma Scan3(inst: Instance, a: int, b: int, c: int)
    ensures var da, db, dc := NodeDemand(inst, a), NodeDemand(inst, b), NodeDemand(inst, c);
      MaxPrefix(inst, [a, b, c]) == Max(Max(Max(0, da), da + db), da + db + dc) &&
      MinPrefix(inst, [a, b, c]) == Min(Min(Min(0, da), da + db), da + db + dc)
  {
    PrefixStep(inst, [], a);
    assert [] + [a] == [a];
    PrefixStep(inst, [a], b);
    assert [a] + [b] == [a, b];
    PrefixStep(inst, [a, b], c);
    assert [a, b] + [c] == [a, b, c];
  }

  /** The prefix scan of a four-node interior. */
  lemma Scan4(inst: Instance, a: int, b: int, c: int, d: int)
    ensures var da, db, dc, dd := NodeDemand(inst, a), NodeDemand(inst, b), NodeDemand(inst, c), NodeDemand(inst, d);
      MaxPrefix(inst, [a, b, c, d]) == Max(Max(Max(Max(0, da), da + db), da + db + dc), da + db + dc + dd) &&
      MinPrefix(inst, [a, b, c, d]) == Min(Min(Min(Min(0, da), da + db), da + db + dc), da + db + dc + dd)
  {
    Scan3(inst, a, b, c);
    PrefixStep(inst, [], a);
    assert [] + [a] == [a];
    PrefixStep(inst, [a], b);
    assert [a] + [b] == [a, b];
    PrefixStep(inst, [a, b], c);
    assert [a, b] + [c] == [a, b, c];
    PrefixStep(inst, [a, b, c], d);
    assert [a, b, c] + [d] == [a, b, c, d];
  }

  /** The initial solution of the tests. */
  function TestRoutes(): seq<Route> {
    [[0, 1, 2, 0], [0, 3, 4, 0], [0, 5, 0], [0, 6, 7, 8, 9, 0]]
  }

  lemma TestRoutesInRange(inst: Instance)
    requires TestInstance(inst)
    ensures AllInRange(inst, TestRoutes()) && AllInRange(inst, TestRoutes() + [[0, 0]])
  {
    assert forall k :: 0 <= k < |TestRoutes()| ==> InRange(inst, TestRoutes()[k]);
    assert (TestRoutes() + [[0, 0]])[4] == [0, 0];
  }

  /** Moving station 5 out of route 2 into the middle of route 0 empties
      route 2 to [0, 0] and makes route 0 [0, 1, 5, 2, 0]. */
  lemma TestInterRoute(inst: Instance)
    requires TestInstance(inst)
    ensures AllInRange(inst, TestRoutes())
    ensures Relocation(inst, TestRoutes(), 2, 1, 0, 2).ok
    ensures Relocation(inst, TestRoutes(), 2, 1, 0, 2).routes[2] == [0, 0]
    ensures Relocation(inst, TestRoutes(), 2, 1, 0, 2).routes[0] == [0, 1, 5, 2, 0]
  {
    TestRoutesInRange(inst);
    assert RemoveAt([0, 5, 0], 1) == [0, 0];
    assert InsertAt([0, 1, 2, 0], 2, 5) == [0, 1, 5, 2, 0];
    EmptyRouteInfo(inst);
    assert Interior([0, 1, 5, 2, 0]) == [1, 5, 2];
    Scan3(inst, 1, 5, 2);
  }

  /** Moving station 6 forward, before old position 4 of route 3, gives
      [0, 7, 8, 6, 9, 0]. */
  lemma TestIntraForward(inst: Instance)
    requires TestInstance(inst)
    ensures AllInRange(inst, TestRoutes())
    ensures Relocation(inst, TestRoutes(), 3, 1, 3, 4).ok
    ensures Relocation(inst, TestRoutes(), 3, 1, 3, 4).routes[3] == [0, 7, 8, 6, 9, 0]
  {
    TestRoutesInRange(inst);
    var route := TestRoutes()[3];
    assert Moved(route, 1, 4) == [0, 7, 8, 6, 9, 0];
    RelocationIntra(inst, TestRoutes(), 3, 1, 4);
    var s := [7, 8, 6, 9];
    assert Interior([0, 7, 8, 6, 9, 0]) == s;
    Scan4(inst, 7, 8, 6, 9);
  }

  /** Moving station 9 back, before old position 2 of route 3, gives
      [0, 6, 9, 7, 8, 0]. */
  lemma TestIntraBackward(inst: Instance)
    requires TestInstance(inst)
    ensures AllInRange(inst, TestRoutes())
    ensures Relocation(inst, TestRoutes(), 3, 4, 3, 2).ok
    ensures Relocation(inst, TestRoutes(), 3, 4, 3, 2).routes[3] == [0, 6, 9, 7, 8, 0]
  {
    TestRoutesInRange(inst);
    var route := TestRoutes()[3];
    assert Moved(route, 4, 2) == [0, 6, 9, 7, 8, 0];
    RelocationIntra(inst, TestRoutes(), 3, 4, 2);
    var s := [6, 9, 7, 8];
    assert Interior([0, 6, 9, 7, 8, 0]) == s;
    Scan4(inst, 6, 9, 7, 8);
  }

  /** The opening depot cannot be moved: from_idx 0 is rejected, nothing changes. */
  lemma TestDepotStart(inst: Instance)
    requires TestInstance(inst)
    ensures AllInRange(inst, TestRoutes())
    ensures Relocation(inst, TestRoutes(), 0, 0, 1, 1) == Move(false, 0, TestRoutes())
  {
    TestRoutesInRange(inst);
  }

  /** As the suite writes its "depot at the end" case, from_idx 2 of
      [0, 1, 2, 0] names station 2, not the closing depot: the move succeeds
      and changes the solution. */
  lemma TestDepotEndAsWritten(inst: Instance)
    requires TestInstance(inst)
    ensures AllInRange(inst, TestRoutes())
    ensures Relocation(inst, TestRoutes(), 0, 2, 1, 1).ok
    ensures Relocation(inst, TestRoutes(), 0, 2, 1, 1).routes != TestRoutes()
  {
    TestRoutesInRange(inst);
    assert RemoveAt([0, 1, 2, 0], 2) == [0, 1, 0];
    assert InsertAt([0, 3, 4, 0], 1, 2) == [0, 2, 3, 4, 0];
    assert Interior([0, 1, 0]) == [1];
    Scan1(inst, 1);
    var s := [2, 3, 4];
    assert Interior([0, 2, 3, 4, 0]) == s;
    Scan3(inst, 2, 3, 4);
    assert Feasible(inst, [0, 1, 0]) && Feasible(inst, [0, 2, 3, 4, 0]);
    assert Relocation(inst, TestRoutes(), 0, 2, 1, 1).routes[0] == [0, 1, 0];
  }

  /** The closing depot of [0, 1, 2, 0] is at from_idx 3, which is rejected
      with the solution unchanged. */
  lemma TestDepotEnd(inst: Instance)
    requires TestInstance(inst)
    ensures AllInRange(inst, TestRoutes())
    ensures Relocation(inst, TestRoutes(), 0, 3, 1, 1) == Move(false, 0, TestRoutes())
  {
    TestRoutesInRange(inst);
  }

  /** Moving station 2 into an added empty route gives [0, 1, 0] and [0, 2, 0]. */
  lemma TestIntoEmptyRoute(inst: Instance)
    requires TestInstance(inst)
    ensures AllInRange(inst, TestRoutes() + [[0, 0]])
    ensures Relocation(inst, TestRoutes() + [[0, 0]], 0, 2, 4, 1).ok
    ensures Relocation(inst, TestRoutes() + [[0, 0]], 0, 2, 4, 1).routes[0] == [0, 1, 0]
    ensures Relocation(inst, TestRoutes() + [[0, 0]], 0, 2, 4, 1).routes[4] == [0, 2, 0]
  {
    TestRoutesInRange(inst);
    var routes := TestRoutes() + [[0, 0]];
    assert routes[0] == [0, 1, 2, 0] && routes[4] == [0, 0];
    assert RemoveAt([0, 1, 2, 0], 2) == [0, 1, 0];
    assert InsertAt([0, 0], 1, 2) == [0, 2, 0];
    assert Interior([0, 1, 0]) == [1] && Interior([0, 2, 0]) == [2];
    Scan1(inst, 1);
    Scan1(inst, 2);
  }
}
