/** The partitioned VND: operators that report which routes they changed, their
    targeted intra-route variants, the mini-RVND on the changed routes, and the
    controller that alternates shuffled inter-route and intra-route phases. */
module Vnd {
  import opened Instance
  import opened Routes
  import opened Costs
  import opened Solutions
  import opened Random
  import opened Moves

  /** Whether the operator improved the solution, and the routes it changed. */
  datatype NeighborhoodResult = NeighborhoodResult(improved: bool, modified: set<int>)

  const NoImprovement := NeighborhoodResult(false, {})

  /** The operators of the partitioned VND. */
  datatype Neighborhood = InterRelocate | InterSwap | IntraTwoOpt | IntraOrOpt2

  /** Moves that can carry nodes from one route to another. */
  predicate IsInter(nb: Neighborhood) {
    nb.InterRelocate? || nb.InterSwap?
  }

  /** The operator finds no improving move on these routes and this recorded
      cost; the intra-route ones look only at the routes in scope. */
  ghost predicate StalledOn(inst: Instance, routes: seq<Route>, total: int, scope: Scope, nb: Neighborhood)
    requires inst.Valid() && AllInRange(inst, routes)
  {
    match nb
    case InterRelocate => RelocateStuck(inst, routes, total)
    case InterSwap => SwapStuck(inst, routes, total)
    case IntraTwoOpt => TwoOptStuck(inst, routes, scope)
    case IntraOrOpt2 => OrOptStuck(inst, routes, scope)
  }

  /** ImproveTwoOpt: the first improving segment reversal; reports its route. */
  method ImproveTwoOpt(inst: Instance, sol: Solution) returns (res: NeighborhoodResult)
    requires inst.Valid() && AllInRange(inst, sol.routes)
    modifies sol
    ensures !res.improved ==> res == NoImprovement
    ensures !res.improved ==> sol.routes == old(sol.routes) && sol.totalCost == old(sol.totalCost)
    ensures !res.improved ==> TwoOptStuck(inst, old(sol.routes), AllRoutes)
    ensures res.improved ==> exists r :: res.modified == {r} && TwoOptTaken(inst, old(sol.routes), AllRoutes, r, sol.routes)
    ensures res.improved ==> AllInRange(inst, sol.routes) && sol.totalCost == SolutionCost(inst, sol.routes)
  {
    var improved, r := TwoOptSearch(inst, sol, AllRoutes);
    res := if improved then NeighborhoodResult(true, {r}) else NoImprovement;
  }

  /** ImproveRelocate: the first improving relocation against the recorded total
      cost; reports its source and target routes. */
  method ImproveRelocate(inst: Instance, sol: Solution) returns (res: NeighborhoodResult)
    requires inst.Valid() && Shaped(inst, sol.routes)
    modifies sol
    ensures !res.improved ==> res == NoImprovement
    ensures !res.improved ==> sol.routes == old(sol.routes) && sol.totalCost == old(sol.totalCost)
    ensures !res.improved ==> RelocateStuck(inst, old(sol.routes), old(sol.totalCost))
    ensures res.improved ==> exists f, t :: res.modified == {f, t} && RelocateTaken(inst, old(sol.routes), old(sol.totalCost), f, t, sol.routes)
    ensures res.improved ==> AllInRange(inst, sol.routes) && sol.totalCost == SolutionCost(inst, sol.routes)
  {
    var improved, f, t := RelocateSearch(inst, sol);
    res := if improved then NeighborhoodResult(true, {f, t}) else NoImprovement;
  }

  /** ImproveSwap: the first improving exchange against the recorded total cost;
      reports both routes. */
  method ImproveSwap(inst: Instance, sol: Solution) returns (res: NeighborhoodResult)
    requires inst.Valid() && AllInRange(inst, sol.routes)
    modifies sol
    ensures !res.improved ==> res == NoImprovement
    ensures !res.improved ==> sol.routes == old(sol.routes) && sol.totalCost == old(sol.totalCost)
    ensures !res.improved ==> SwapStuck(inst, old(sol.routes), old(sol.totalCost))
    ensures res.improved ==> exists r1, r2 :: res.modified == {r1, r2} && SwapTaken(inst, old(sol.routes), old(sol.totalCost), r1, r2, sol.routes)
    ensures res.improved ==> AllInRange(inst, sol.routes) && sol.totalCost == SolutionCost(inst, sol.routes)
  {
    var improved, r1, r2 := SwapSearch(inst, sol);
    res := if improved then NeighborhoodResult(true, {r1, r2}) else NoImprovement;
  }

  /** ImproveOrOpt2 as written: the first improving block move; reports its
      route. The recorded total is then overwritten with the cost of that route
      alone, which is at most the solution cost when costs are non-negative. */
  method ImproveOrOpt2(inst: Instance, sol: Solution) returns (res: NeighborhoodResult)
    requires inst.Valid() && AllInRange(inst, sol.routes)
    modifies sol
    ensures !res.improved ==> res == NoImprovement
    ensures !res.improved ==> sol.routes == old(sol.routes) && sol.totalCost == old(sol.totalCost)
    ensures !res.improved ==> OrOptStuck(inst, old(sol.routes), AllRoutes)
    ensures res.improved ==> AllInRange(inst, sol.routes)
    ensures res.improved ==> exists r :: (res.modified == {r} && OrOptTaken(inst, old(sol.routes), AllRoutes, r, sol.routes)
      && 0 <= r < |sol.routes| && sol.totalCost == RouteCost(inst, sol.routes[r]))
    ensures res.improved && inst.NonNegativeCosts() ==> 0 <= sol.totalCost <= SolutionCost(inst, sol.routes)
  {
    var improved, r := OrOptSearch(inst, sol, AllRoutes);
    if improved {
      TwoOptLength(inst, old(sol.routes), r, sol.routes);
      var newCost := ComputeRouteCost(inst, sol.routes[r]);
      sol.totalCost := newCost;
      if inst.NonNegativeCosts() {
        RouteCostAtMostSolutionCost(inst, sol.routes, r);
      }
      res := NeighborhoodResult(true, {r});
    } else {
      res := NoImprovement;
    }
  }

  /** After an improving or-opt move as written, the recorded total falls short
      of the solution cost whenever some other route costs anything. */
  lemma OrOptRecordedTotalTooLow(inst: Instance, routes: seq<Route>, r: int, k: int, total: int)
    requires inst.Valid() && inst.NonNegativeCosts() && AllInRange(inst, routes)
    requires 0 <= r < |routes| && 0 <= k < |routes| && k != r && RouteCost(inst, routes[k]) > 0
    requires total == RouteCost(inst, routes[r])
    ensures total < SolutionCost(inst, routes)
  {
    TwoRouteCostsAtMostSolutionCost(inst, routes, r, k);
  }

  /** ImproveOrOpt2 with the recorded total left at the solution cost of the
      improved routes, as the line before the overwrite sets it; the operator the
      partitioned VND runs. */
  method ImproveOrOpt2Corrected(inst: Instance, sol: Solution) returns (res: NeighborhoodResult)
    requires inst.Valid() && AllInRange(inst, sol.routes)
    modifies sol
    ensures !res.improved ==> res == NoImprovement
    ensures !res.improved ==> sol.routes == old(sol.routes) && sol.totalCost == old(sol.totalCost)
    ensures !res.improved ==> OrOptStuck(inst, old(sol.routes), AllRoutes)
    ensures res.improved ==> exists r :: res.modified == {r} && OrOptTaken(inst, old(sol.routes), AllRoutes, r, sol.routes)
    ensures res.improved ==> AllInRange(inst, sol.routes) && sol.totalCost == SolutionCost(inst, sol.routes)
  {
    var improved, r := OrOptSearch(inst, sol, AllRoutes);
    res := if improved then NeighborhoodResult(true, {r}) else NoImprovement;
  }

  lemma TwoOptLength(inst: Instance, routes0: seq<Route>, r: int, routes1: seq<Route>)
    requires inst.Valid() && AllInRange(inst, routes0) && OrOptTaken(inst, routes0, AllRoutes, r, routes1)
    ensures 0 <= r < |routes1| == |routes0|
  {
  }

  /** TwoOptTarget: 2-opt on the routes of targets only, in ascending order,
      skipping indices out of range; no other route changes. */
  method TwoOptTargeted(inst: Instance, sol: Solution, targets: set<int>) returns (res: NeighborhoodResult)
    requires inst.Valid() && AllInRange(inst, sol.routes)
    modifies sol
    ensures !res.improved ==> res == NoImprovement
    ensures !res.improved ==> sol.routes == old(sol.routes) && sol.totalCost == old(sol.totalCost)
    ensures !res.improved ==> TwoOptStuck(inst, old(sol.routes), Only(targets))
    ensures res.improved ==> exists r :: (r in targets && res.modified == {r}
      && TwoOptTaken(inst, old(sol.routes), Only(targets), r, sol.routes))
    ensures res.improved ==> Changes(inst, old(sol.routes), sol.routes, targets)
    ensures res.improved ==> SolutionCost(inst, sol.routes) < SolutionCost(inst, old(sol.routes))
    ensures res.improved ==> sol.totalCost == SolutionCost(inst, sol.routes)
  {
    ghost var routes0 := sol.routes;
    var improved, r := TwoOptSearch(inst, sol, Only(targets));
    if improved {
      TwoOptTakenChanges(inst, routes0, Only(targets), r, sol.routes);
      ChangesWiden(inst, routes0, sol.routes, {r}, targets);
      res := NeighborhoodResult(true, {r});
      assert r in targets && res.modified == {r} && TwoOptTaken(inst, routes0, Only(targets), r, sol.routes);
    } else {
      res := NoImprovement;
    }
  }

  /** OrOpt2Targeted: or-opt-2 on the routes of targets only; no other route
      changes, and the recorded total is the solution cost. */
  method OrOpt2Targeted(inst: Instance, sol: Solution, targets: set<int>) returns (res: NeighborhoodResult)
    requires inst.Valid() && AllInRange(inst, sol.routes)
    modifies sol
    ensures !res.improved ==> res == NoImprovement
    ensures !res.improved ==> sol.routes == old(sol.routes) && sol.totalCost == old(sol.totalCost)
    ensures !res.improved ==> OrOptStuck(inst, old(sol.routes), Only(targets))
    ensures res.improved ==> exists r :: (r in targets && res.modified == {r}
      && OrOptTaken(inst, old(sol.routes), Only(targets), r, sol.routes))
    ensures res.improved ==> Changes(inst, old(sol.routes), sol.routes, targets)
    ensures res.improved ==> SolutionCost(inst, sol.routes) < SolutionCost(inst, old(sol.routes))
    ensures res.improved ==> sol.totalCost == SolutionCost(inst, sol.routes)
  {
    ghost var routes0 := sol.routes;
    var improved, r := OrOptSearch(inst, sol, Only(targets));
    if improved {
      OrOptTakenChanges(inst, routes0, Only(targets), r, sol.routes);
      ChangesWiden(inst, routes0, sol.routes, {r}, targets);
      res := NeighborhoodResult(true, {r});
      assert r in targets && res.modified == {r} && OrOptTaken(inst, routes0, Only(targets), r, sol.routes);
    } else {
      res := NoImprovement;
    }
  }

  lemma ChangesWiden(inst: Instance, routes0: seq<Route>, routes1: seq<Route>, touched: set<int>, wider: set<int>)
    requires Changes(inst, routes0, routes1, touched) && touched <= wider
    ensures Changes(inst, routes0, routes1, wider)
  {
  }

  lemma ChangesEvolve(inst: Instance, routes0: seq<Route>, routes1: seq<Route>, touched: set<int>)
    requires Changes(inst, routes0, routes1, touched)
    ensures Evolves(inst, routes0, routes1)
  {
  }

  /** neighborhood(data, current_solution, rng) for an operator of the lists,
      with the corrected or-opt operator. Every improvement lowers the solution
      cost and records it as the total. */
  method Improve(inst: Instance, sol: Solution, nb: Neighborhood) returns (res: NeighborhoodResult)
    requires inst.Valid() && inst.NonNegativeCosts() && Shaped(inst, sol.routes)
    requires sol.totalCost <= SolutionCost(inst, sol.routes)
    modifies sol
    ensures !res.improved ==> sol.routes == old(sol.routes) && sol.totalCost == old(sol.totalCost)
    ensures !res.improved ==> StalledOn(inst, sol.routes, sol.totalCost, AllRoutes, nb)
    ensures res.improved ==> Changes(inst, old(sol.routes), sol.routes, res.modified)
    ensures res.improved ==> SolutionCost(inst, sol.routes) < SolutionCost(inst, old(sol.routes))
    ensures res.improved ==> 0 <= sol.totalCost <= SolutionCost(inst, sol.routes)
    ensures res.improved ==> sol.totalCost == SolutionCost(inst, sol.routes)
  {
    ghost var routes0 := sol.routes;
    match nb {
      case InterRelocate =>
        res := ImproveRelocate(inst, sol);
        if res.improved {
          ghost var f, t :| res.modified == {f, t} && RelocateTaken(inst, routes0, old(sol.totalCost), f, t, sol.routes);
          RelocateTakenChanges(inst, routes0, old(sol.totalCost), f, t, sol.routes);
        }
      case InterSwap =>
        res := ImproveSwap(inst, sol);
        if res.improved {
          ghost var r1, r2 :| res.modified == {r1, r2} && SwapTaken(inst, routes0, old(sol.totalCost), r1, r2, sol.routes);
          SwapTakenChanges(inst, routes0, old(sol.totalCost), r1, r2, sol.routes);
        }
      case IntraTwoOpt =>
        res := ImproveTwoOpt(inst, sol);
        if res.improved {
          ghost var r :| res.modified == {r} && TwoOptTaken(inst, routes0, AllRoutes, r, sol.routes);
          TwoOptTakenChanges(inst, routes0, AllRoutes, r, sol.routes);
        }
      case IntraOrOpt2 =>
        res := ImproveOrOpt2Corrected(inst, sol);
        if res.improved {
          ghost var r :| res.modified == {r} && OrOptTaken(inst, routes0, AllRoutes, r, sol.routes);
          OrOptTakenChanges(inst, routes0, AllRoutes, r, sol.routes);
        }
    }
  }

  /** func(data, solution, rng, target_routes) for one of the two targeted
      intra-route operators. */
  method ImproveTargeted(inst: Instance, sol: Solution, nb: Neighborhood, targets: set<int>) returns (improved: bool)
    requires inst.Valid() && AllInRange(inst, sol.routes) && !IsInter(nb)
    modifies sol
    ensures !improved ==> sol.routes == old(sol.routes) && sol.totalCost == old(sol.totalCost)
    ensures !improved ==> StalledOn(inst, sol.routes, sol.totalCost, Only(targets), nb)
    ensures improved ==> Changes(inst, old(sol.routes), sol.routes, targets)
    ensures improved ==> SolutionCost(inst, sol.routes) < SolutionCost(inst, old(sol.routes))
    ensures improved ==> sol.totalCost == SolutionCost(inst, sol.routes)
  {
    var res;
    if nb == IntraTwoOpt {
      res := TwoOptTargeted(inst, sol, targets);
    } else {
      res := OrOpt2Targeted(inst, sol, targets);
    }
    improved := res.improved;
  }

  lemma StalledPrefix(inst: Instance, routes: seq<Route>, total: int, scope: Scope, order: seq<Neighborhood>, i: int)
    requires inst.Valid() && AllInRange(inst, routes) && 0 <= i < |order|
    requires forall j :: 0 <= j < i ==> StalledOn(inst, routes, total, scope, order[j])
    requires StalledOn(inst, routes, total, scope, order[i])
    ensures forall j :: 0 <= j < i + 1 ==> StalledOn(inst, routes, total, scope, order[j])
  {
  }

  /** One pass of the mini-RVND: the operators in the given order until one
      improves. */
  method TargetedRound(inst: Instance, sol: Solution, order: seq<Neighborhood>, targets: set<int>)
    returns (improved: bool)
    requires inst.Valid() && AllInRange(inst, sol.routes)
    requires forall j :: 0 <= j < |order| ==> !IsInter(order[j])
    modifies sol
    ensures !improved ==> sol.routes == old(sol.routes) && sol.totalCost == old(sol.totalCost)
    ensures !improved ==> forall nb :: nb in order ==> StalledOn(inst, sol.routes, sol.totalCost, Only(targets), nb)
    ensures improved ==> Changes(inst, old(sol.routes), sol.routes, targets)
    ensures improved ==> SolutionCost(inst, sol.routes) < SolutionCost(inst, old(sol.routes))
    ensures improved ==> sol.totalCost == SolutionCost(inst, sol.routes)
  {
    var i := 0;
    while i < |order|
      invariant 0 <= i <= |order|
      invariant sol.routes == old(sol.routes) && sol.totalCost == old(sol.totalCost)
      invariant forall j :: 0 <= j < i ==> StalledOn(inst, sol.routes, sol.totalCost, Only(targets), order[j])
    {
      improved := ImproveTargeted(inst, sol, order[i], targets);
      if improved {
        return;
      }
      StalledPrefix(inst, sol.routes, sol.totalCost, Only(targets), order, i);
      i := i + 1;
    }
    improved := false;
  }

  /** IntraRouteRVND: nothing for an empty target set; otherwise shuffled passes
      of the two targeted operators until a pass finds nothing. True exactly when
      some improvement was applied; only target routes change, and at the end
      neither operator improves a target route. */
  method IntraRouteRVND(inst: Instance, sol: Solution, rng: Rng, targets: set<int>) returns (changed: bool)
    requires inst.Valid() && inst.NonNegativeCosts() && AllInRange(inst, sol.routes)
    modifies sol, rng
    ensures Changes(inst, old(sol.routes), sol.routes, targets)
    ensures targets == {} ==> !changed
    ensures !changed ==> sol.routes == old(sol.routes) && sol.totalCost == old(sol.totalCost)
    ensures changed ==> SolutionCost(inst, sol.routes) < SolutionCost(inst, old(sol.routes))
    ensures changed ==> sol.totalCost == SolutionCost(inst, sol.routes)
    ensures targets != {} ==> TwoOptStuck(inst, sol.routes, Only(targets)) && OrOptStuck(inst, sol.routes, Only(targets))
  {
    ChangesRefl(inst, sol.routes, targets);
    if targets == {} {
      return false;
    }
    var funcs := [IntraTwoOpt, IntraOrOpt2];
    changed := false;
    var local := true;
    while local
      invariant Changes(inst, old(sol.routes), sol.routes, targets)
      invariant multiset(funcs) == multiset{IntraTwoOpt, IntraOrOpt2}
      invariant !changed ==> sol.routes == old(sol.routes) && sol.totalCost == old(sol.totalCost)
      invariant changed ==> SolutionCost(inst, sol.routes) < SolutionCost(inst, old(sol.routes))
      invariant changed ==> sol.totalCost == SolutionCost(inst, sol.routes)
      invariant !local ==> TwoOptStuck(inst, sol.routes, Only(targets)) && OrOptStuck(inst, sol.routes, Only(targets))
      decreases SolutionCost(inst, sol.routes) + (if local then 1 else 0)
    {
      ghost var before := sol.routes;
      local := false;
      funcs := rng.Shuffle(funcs);
      assert IntraTwoOpt in multiset(funcs) && IntraOrOpt2 in multiset(funcs);
      assert forall j :: 0 <= j < |funcs| ==> funcs[j] in multiset{IntraTwoOpt, IntraOrOpt2};
      local := TargetedRound(inst, sol, funcs, targets);
      if local {
        ChangesTrans(inst, old(sol.routes), before, sol.routes, targets);
        changed := true;
      } else {
        assert StalledOn(inst, sol.routes, sol.totalCost, Only(targets), IntraTwoOpt);
        assert StalledOn(inst, sol.routes, sol.totalCost, Only(targets), IntraOrOpt2);
      }
    }
  }

  /** One pass over the inter-route operators in the given order: the first that
      improves is followed by the mini-RVND on the routes it reported. */
  method InterRound(inst: Instance, sol: Solution, rng: Rng, order: seq<Neighborhood>) returns (improved: bool)
    requires inst.Valid() && inst.NonNegativeCosts() && Shaped(inst, sol.routes)
    requires sol.totalCost <= SolutionCost(inst, sol.routes)
    modifies sol, rng
    ensures !improved ==> sol.routes == old(sol.routes) && sol.totalCost == old(sol.totalCost)
    ensures !improved ==> forall nb :: nb in order ==> StalledOn(inst, sol.routes, sol.totalCost, AllRoutes, nb)
    ensures improved ==> Evolves(inst, old(sol.routes), sol.routes)
    ensures improved ==> SolutionCost(inst, sol.routes) < SolutionCost(inst, old(sol.routes))
    ensures improved ==> 0 <= sol.totalCost <= SolutionCost(inst, sol.routes)
    ensures improved ==> sol.totalCost == SolutionCost(inst, sol.routes)
  {
    var i := 0;
    while i < |order|
      invariant 0 <= i <= |order|
      invariant sol.routes == old(sol.routes) && sol.totalCost == old(sol.totalCost)
      invariant forall j :: 0 <= j < i ==> StalledOn(inst, sol.routes, sol.totalCost, AllRoutes, order[j])
    {
      var res := Improve(inst, sol, order[i]);
      if !res.improved {
        StalledPrefix(inst, sol.routes, sol.totalCost, AllRoutes, order, i);
      }
      if res.improved {
        ghost var mid := sol.routes;
        ChangesEvolve(inst, old(sol.routes), mid, res.modified);
        if res.modified != {} {
          var _ := IntraRouteRVND(inst, sol, rng, res.modified);
          ChangesEvolve(inst, mid, sol.routes, res.modified);
          EvolvesTrans(inst, old(sol.routes), mid, sol.routes);
        }
        return true;
      }
      i := i + 1;
    }
    improved := false;
  }

  /** One pass over the intra-route operators in the given order until one improves. */
  method IntraRound(inst: Instance, sol: Solution, order: seq<Neighborhood>) returns (improved: bool)
    requires inst.Valid() && inst.NonNegativeCosts() && Shaped(inst, sol.routes)
    requires sol.totalCost <= SolutionCost(inst, sol.routes)
    modifies sol
    ensures !improved ==> sol.routes == old(sol.routes) && sol.totalCost == old(sol.totalCost)
    ensures !improved ==> forall nb :: nb in order ==> StalledOn(inst, sol.routes, sol.totalCost, AllRoutes, nb)
    ensures improved ==> Evolves(inst, old(sol.routes), sol.routes)
    ensures improved ==> SolutionCost(inst, sol.routes) < SolutionCost(inst, old(sol.routes))
    ensures improved ==> 0 <= sol.totalCost <= SolutionCost(inst, sol.routes)
    ensures improved ==> sol.totalCost == SolutionCost(inst, sol.routes)
  {
    var i := 0;
    while i < |order|
      invariant 0 <= i <= |order|
      invariant sol.routes == old(sol.routes) && sol.totalCost == old(sol.totalCost)
      invariant forall j :: 0 <= j < i ==> StalledOn(inst, sol.routes, sol.totalCost, AllRoutes, order[j])
    {
      var res := Improve(inst, sol, order[i]);
      if !res.improved {
        StalledPrefix(inst, sol.routes, sol.totalCost, AllRoutes, order, i);
      }
      if res.improved {
        ChangesEvolve(inst, old(sol.routes), sol.routes, res.modified);
        return true;
      }
      i := i + 1;
    }
    improved := false;
  }

  /** The loop of one phase: shuffle the operator list, run a pass, and repeat
      while a pass improves. The list keeps its shuffled order for the next
      phase. At the end no operator of the list improves the solution. */
  method Phase(inst: Instance, sol: Solution, rng: Rng, order: seq<Neighborhood>, inter: bool)
    returns (changed: bool, order': seq<Neighborhood>)
    requires inst.Valid() && inst.NonNegativeCosts() && Shaped(inst, sol.routes)
    requires 0 <= sol.totalCost <= SolutionCost(inst, sol.routes)
    modifies sol, rng
    ensures multiset(order') == multiset(order)
    ensures Shaped(inst, sol.routes) && 0 <= sol.totalCost <= SolutionCost(inst, sol.routes)
    ensures Evolves(inst, old(sol.routes), sol.routes)
    ensures !changed ==> sol.routes == old(sol.routes) && sol.totalCost == old(sol.totalCost)
    ensures changed ==> SolutionCost(inst, sol.routes) < SolutionCost(inst, old(sol.routes))
    ensures changed ==> sol.totalCost == SolutionCost(inst, sol.routes)
    ensures forall nb :: nb in multiset(order) ==> StalledOn(inst, sol.routes, sol.totalCost, AllRoutes, nb)
  {
    EvolvesRefl(inst, sol.routes);
    order' := order;
    changed := false;
    var change := true;
    while change
      invariant multiset(order') == multiset(order)
      invariant Shaped(inst, sol.routes) && 0 <= sol.totalCost <= SolutionCost(inst, sol.routes)
      invariant Evolves(inst, old(sol.routes), sol.routes)
      invariant !changed ==> sol.routes == old(sol.routes) && sol.totalCost == old(sol.totalCost)
      invariant changed ==> SolutionCost(inst, sol.routes) < SolutionCost(inst, old(sol.routes))
      invariant changed ==> sol.totalCost == SolutionCost(inst, sol.routes)
      invariant !change ==> forall nb :: nb in order' ==> StalledOn(inst, sol.routes, sol.totalCost, AllRoutes, nb)
      decreases SolutionCost(inst, sol.routes) + (if change then 1 else 0)
    {
      ghost var before := sol.routes;
      change := false;
      order' := rng.Shuffle(order');
      if inter {
        change := InterRound(inst, sol, rng, order');
      } else {
        change := IntraRound(inst, sol, order');
      }
      if change {
        EvolvesTrans(inst, old(sol.routes), before, sol.routes);
        changed := true;
      }
    }
  }

  /** Every operator is stalled once both lists are. */
  lemma AllStalled(inst: Instance, routes: seq<Route>, total: int, inter: seq<Neighborhood>, intra: seq<Neighborhood>)
    requires inst.Valid() && AllInRange(inst, routes)
    requires multiset(inter) == multiset(GetInterRouteNeighborhoods())
    requires multiset(intra) == multiset(GetIntraRouteNeighborhoods())
    requires forall nb :: nb in multiset(inter) ==> StalledOn(inst, routes, total, AllRoutes, nb)
    requires forall nb :: nb in multiset(intra) ==> StalledOn(inst, routes, total, AllRoutes, nb)
    ensures forall nb :: StalledOn(inst, routes, total, AllRoutes, nb)
  {
    forall nb ensures StalledOn(inst, routes, total, AllRoutes, nb) {
      if IsInter(nb) {
        assert nb in multiset(inter);
      } else {
        assert nb in multiset(intra);
      }
    }
  }

  /** The partitioned VND. Its neighborhoods argument is not used: each pass runs
      the inter-route phase, then the intra-route phase only if the inter-route
      phase changed nothing, and the passes repeat while something changed. The
      result keeps the nodes, route ends and feasibility of the start, costs no
      more, records its cost as the total, and no operator improves it. */
  method VND(inst: Instance, start: Solution, rng: Rng, neighborhoods: seq<Neighborhood>) returns (result: Solution)
    requires inst.Valid() && inst.NonNegativeCosts() && Shaped(inst, start.routes)
    modifies rng
    ensures fresh(result)
    ensures Evolves(inst, start.routes, result.routes) && Shaped(inst, result.routes)
    ensures 0 <= result.totalCost <= SolutionCost(inst, result.routes) <= SolutionCost(inst, start.routes)
    ensures result.totalCost == SolutionCost(inst, result.routes)
    ensures forall nb :: StalledOn(inst, result.routes, result.totalCost, AllRoutes, nb)
  {
    var total := ComputeSolutionCost(inst, start.routes);
    result := new Solution(start.routes, total);
    EvolvesRefl(inst, start.routes);
    var inter := GetInterRouteNeighborhoods();
    var intra := GetIntraRouteNeighborhoods();
    var globalChange := true;
    while globalChange
      invariant Shaped(inst, result.routes) && Evolves(inst, start.routes, result.routes)
      invariant 0 <= result.totalCost <= SolutionCost(inst, result.routes) <= SolutionCost(inst, start.routes)
      invariant result.totalCost == SolutionCost(inst, result.routes)
      invariant multiset(inter) == multiset(GetInterRouteNeighborhoods())
      invariant multiset(intra) == multiset(GetIntraRouteNeighborhoods())
      invariant !globalChange ==> forall nb :: StalledOn(inst, result.routes, result.totalCost, AllRoutes, nb)
      decreases SolutionCost(inst, result.routes) + (if globalChange then 1 else 0)
    {
      ghost var before := result.routes;
      globalChange := false;
      var interChanged;
      interChanged, inter := Phase(inst, result, rng, inter, true);
      EvolvesTrans(inst, start.routes, before, result.routes);
      if interChanged {
        globalChange := true;
      }
      if !globalChange {
        var intraChanged;
        intraChanged, intra := Phase(inst, result, rng, intra, false);
        if intraChanged {
          EvolvesTrans(inst, start.routes, before, result.routes);
          globalChange := true;
        } else {
          AllStalled(inst, result.routes, result.totalCost, inter, intra);
        }
      }
    }
  }

  /** GetInterRouteNeighborhoods: relocate, swap. */
  function GetInterRouteNeighborhoods(): (ns: seq<Neighborhood>)
    ensures |ns| == 2 && forall nb :: nb in ns <==> IsInter(nb)
  {
    [InterRelocate, InterSwap]
  }

  /** GetIntraRouteNeighborhoods: 2-opt, or-opt-2. */
  function GetIntraRouteNeighborhoods(): (ns: seq<Neighborhood>)
    ensures |ns| == 2 && forall nb :: nb in ns <==> !IsInter(nb)
  {
    [IntraTwoOpt, IntraOrOpt2]
  }

  /** GetAllNeighborhoods: the inter-route list followed by the intra-route list. */
  function GetAllNeighborhoods(): (ns: seq<Neighborhood>)
    ensures |ns| == 4 && ns[..2] == GetInterRouteNeighborhoods() && ns[2..] == GetIntraRouteNeighborhoods()
  {
    GetInterRouteNeighborhoods() + GetIntraRouteNeighborhoods()
  }

  /** Every operator appears exactly once in the full list. */
  lemma AllNeighborhoodsOnce()
    ensures forall nb :: multiset(GetAllNeighborhoods())[nb] == 1
  {
    var ns := GetAllNeighborhoods();
    assert ns == [InterRelocate, InterSwap, IntraTwoOpt, IntraOrOpt2];
    var ms := multiset{InterRelocate, InterSwap, IntraTwoOpt, IntraOrOpt2};
    assert multiset(ns) == ms;
    forall nb ensures ms[nb] == 1 {
      match nb {
        case InterRelocate =>
        case InterSwap =>
        case IntraTwoOpt =>
        case IntraOrOpt2 =>
      }
    }
  }
}
