/** The step-wise local search: four operators that each apply the first
    improving move of their kind to the solution, and the VND that cycles
    through a list of them with a cursor until all fail in a row. */
module LocalSearch {
  import opened Instance
  import opened Routes
  import opened Costs
  import opened Solutions
  import opened Moves

  /** TwoOptStep: true after one improving segment reversal was applied. */
  method TwoOptStep(inst: Instance, sol: Solution) returns (improved: bool)
    requires inst.Valid() && AllInRange(inst, sol.routes)
    modifies sol
    ensures !improved ==> sol.routes == old(sol.routes) && sol.totalCost == old(sol.totalCost)
    ensures !improved ==> TwoOptStuck(inst, old(sol.routes), AllRoutes)
    ensures improved ==> exists r :: 0 <= r < |old(sol.routes)| && TwoOptTaken(inst, old(sol.routes), AllRoutes, r, sol.routes)
    ensures improved ==> AllInRange(inst, sol.routes) && sol.totalCost == SolutionCost(inst, sol.routes)
  {
    var r;
    improved, r := TwoOptSearch(inst, sol, AllRoutes);
  }

  /** RelocateStep: true after one improving relocation, judged against the
      recorded total cost, was applied. */
  method RelocateStep(inst: Instance, sol: Solution) returns (improved: bool)
    requires inst.Valid() && Shaped(inst, sol.routes)
    modifies sol
    ensures !improved ==> sol.routes == old(sol.routes) && sol.totalCost == old(sol.totalCost)
    ensures !improved ==> RelocateStuck(inst, old(sol.routes), old(sol.totalCost))
    ensures improved ==> exists f, t :: RelocateTaken(inst, old(sol.routes), old(sol.totalCost), f, t, sol.routes)
    ensures improved ==> AllInRange(inst, sol.routes) && sol.totalCost == SolutionCost(inst, sol.routes)
  {
    var f, t;
    improved, f, t := RelocateSearch(inst, sol);
  }

  /** SwapStep: true after one improving exchange, judged against the recorded
      total cost, was applied. */
  method SwapStep(inst: Instance, sol: Solution) returns (improved: bool)
    requires inst.Valid() && AllInRange(inst, sol.routes)
    modifies sol
    ensures !improved ==> sol.routes == old(sol.routes) && sol.totalCost == old(sol.totalCost)
    ensures !improved ==> SwapStuck(inst, old(sol.routes), old(sol.totalCost))
    ensures improved ==> exists r1, r2 :: SwapTaken(inst, old(sol.routes), old(sol.totalCost), r1, r2, sol.routes)
    ensures improved ==> AllInRange(inst, sol.routes) && sol.totalCost == SolutionCost(inst, sol.routes)
  {
    var r1, r2;
    improved, r1, r2 := SwapSearch(inst, sol);
  }

  /** OrOpt2Step: true after one improving block move was applied. */
  method OrOpt2Step(inst: Instance, sol: Solution) returns (improved: bool)
    requires inst.Valid() && AllInRange(inst, sol.routes)
    modifies sol
    ensures !improved ==> sol.routes == old(sol.routes) && sol.totalCost == old(sol.totalCost)
    ensures !improved ==> OrOptStuck(inst, old(sol.routes), AllRoutes)
    ensures improved ==> exists r :: 0 <= r < |old(sol.routes)| && OrOptTaken(inst, old(sol.routes), AllRoutes, r, sol.routes)
    ensures improved ==> AllInRange(inst, sol.routes) && sol.totalCost == SolutionCost(inst, sol.routes)
  {
    var r;
    improved, r := OrOptSearch(inst, sol, AllRoutes);
  }

  /** The neighbourhood functions a VND list can hold. */
  datatype Operator = RelocateOp | SwapOp | TwoOptOp | OrOpt2Op

  /** The operator finds no improving move on these routes and this recorded cost. */
  ghost predicate Stalled(inst: Instance, routes: seq<Route>, total: int, op: Operator)
    requires inst.Valid() && AllInRange(inst, routes)
  {
    match op
    case RelocateOp => RelocateStuck(inst, routes, total)
    case SwapOp => SwapStuck(inst, routes, total)
    case TwoOptOp => TwoOptStuck(inst, routes, AllRoutes)
    case OrOpt2Op => OrOptStuck(inst, routes, AllRoutes)
  }

  /** neighborhoods[k](data, solution, rng) for an operator of the list, with the
      consequences of an improving move drawn from the move lemmas. */
  method Apply(inst: Instance, sol: Solution, op: Operator) returns (improved: bool)
    requires inst.Valid() && Shaped(inst, sol.routes) && sol.totalCost == SolutionCost(inst, sol.routes)
    modifies sol
    ensures !improved ==> sol.routes == old(sol.routes) && sol.totalCost == old(sol.totalCost)
    ensures !improved ==> Stalled(inst, sol.routes, sol.totalCost, op)
    ensures improved ==> Evolves(inst, old(sol.routes), sol.routes) && sol.totalCost == SolutionCost(inst, sol.routes)
    ensures improved ==> SolutionCost(inst, sol.routes) < SolutionCost(inst, old(sol.routes))
  {
    ghost var routes0 := sol.routes;
    match op {
      case RelocateOp =>
        improved := RelocateStep(inst, sol);
        if improved {
          ghost var f, t :| RelocateTaken(inst, routes0, old(sol.totalCost), f, t, sol.routes);
          RelocateTakenChanges(inst, routes0, old(sol.totalCost), f, t, sol.routes);
        }
      case SwapOp =>
        improved := SwapStep(inst, sol);
        if improved {
          ghost var r1, r2 :| SwapTaken(inst, routes0, old(sol.totalCost), r1, r2, sol.routes);
          SwapTakenChanges(inst, routes0, old(sol.totalCost), r1, r2, sol.routes);
        }
      case TwoOptOp =>
        improved := TwoOptStep(inst, sol);
        if improved {
          ghost var r :| 0 <= r < |routes0| && TwoOptTaken(inst, routes0, AllRoutes, r, sol.routes);
          TwoOptTakenChanges(inst, routes0, AllRoutes, r, sol.routes);
        }
      case OrOpt2Op =>
        improved := OrOpt2Step(inst, sol);
        if improved {
          ghost var r :| 0 <= r < |routes0| && OrOptTaken(inst, routes0, AllRoutes, r, sol.routes);
          OrOptTakenChanges(inst, routes0, AllRoutes, r, sol.routes);
        }
    }
  }

  /** VND: cursor k restarts at 0 after an improvement and advances after a
      failure; it stops once every listed operator failed in a row on the
      current solution. The result keeps the nodes, the route ends and the
      feasibility of the start, records its exact cost, and costs no more. */
  method VND(inst: Instance, start: Solution, neighborhoods: seq<Operator>) returns (result: Solution)
    requires inst.Valid() && inst.NonNegativeCosts() && Shaped(inst, start.routes)
    ensures fresh(result)
    ensures Evolves(inst, start.routes, result.routes) && Shaped(inst, result.routes)
    ensures result.totalCost == SolutionCost(inst, result.routes) <= SolutionCost(inst, start.routes)
    ensures forall j :: 0 <= j < |neighborhoods| ==> Stalled(inst, result.routes, result.totalCost, neighborhoods[j])
  {
    var total := ComputeSolutionCost(inst, start.routes);
    result := new Solution(start.routes, total);
    EvolvesRefl(inst, start.routes);
    var k := 0;
    while k < |neighborhoods|
      invariant 0 <= k <= |neighborhoods|
      invariant Evolves(inst, start.routes, result.routes) && Shaped(inst, result.routes)
      invariant result.totalCost == SolutionCost(inst, result.routes) <= SolutionCost(inst, start.routes)
      invariant forall j :: 0 <= j < k ==> Stalled(inst, result.routes, result.totalCost, neighborhoods[j])
      decreases SolutionCost(inst, result.routes), |neighborhoods| - k
    {
      ghost var before := result.routes;
      var improved := Apply(inst, result, neighborhoods[k]);
      if improved {
        EvolvesTrans(inst, start.routes, before, result.routes);
        k := 0;
      } else {
        StalledExtend(inst, result.routes, result.totalCost, neighborhoods, k);
        k := k + 1;
      }
    }
  }

  lemma StalledExtend(inst: Instance, routes: seq<Route>, total: int, ops: seq<Operator>, k: int)
    requires inst.Valid() && AllInRange(inst, routes) && 0 <= k < |ops|
    requires forall j :: 0 <= j < k ==> Stalled(inst, routes, total, ops[j])
    requires Stalled(inst, routes, total, ops[k])
    ensures forall j :: 0 <= j < k + 1 ==> Stalled(inst, routes, total, ops[j])
  {
  }

  /** GetDefaultNeighborhoods: relocate, swap, 2-opt, or-opt-2. */
  function GetDefaultNeighborhoods(): (ops: seq<Operator>)
    ensures |ops| == 4 && RelocateOp in ops && SwapOp in ops && TwoOptOp in ops && OrOpt2Op in ops
  {
    [RelocateOp, SwapOp, TwoOptOp, OrOpt2Op]
  }

  /** With the default list, VND ends in a solution no operator can improve. */
  lemma DefaultListStallsAll(inst: Instance, routes: seq<Route>, total: int)
    requires inst.Valid() && AllInRange(inst, routes)
    requires forall j :: 0 <= j < |GetDefaultNeighborhoods()| ==> Stalled(inst, routes, total, GetDefaultNeighborhoods()[j])
    ensures forall op: Operator :: Stalled(inst, routes, total, op)
  {
    var ops := GetDefaultNeighborhoods();
    forall op: Operator ensures Stalled(inst, routes, total, op) {
      match op {
        case RelocateOp => assert ops[0] == op;
        case SwapOp => assert ops[1] == op;
        case TwoOptOp => assert ops[2] == op;
        case OrOpt2Op => assert ops[3] == op;
      }
    }
  }
}
