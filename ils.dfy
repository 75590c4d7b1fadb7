/** The iterated local search: the three random perturbations with their reverts,
    and the controller that alternates GRASP construction, refinement and a
    perturb-refine-accept inner loop ended by a stall counter. */
module Ils {
  import opened Instance
  import opened Routes
  import opened Costs
  import opened Feasibility
  import opened Solutions
  import opened Random
  import opened Moves
  import opened Construction
  import opened Vnd

  /** ILSParams: outer iterations, the stall limit of the inner loop, the range
      of the GRASP alpha, and the perturbation strength. */
  datatype Params = Params(maxIter: int, maxIterIls: int, alphaMin: real, alphaMax: real, perturbStrength: int)

  /** The defaults of ILSParams. */
  const DefaultParams := Params(50, 150, 0.1, 0.5, 2)

  /** Which branch of the perturbation ran, with the draws it used. Skipped is an
      early return, which leaves the recorded total cost as it was. */
  datatype Perturbation =
    | Skipped
    | BlockMoved(from: int, to: int, start: int, size: int, pos: int)
    | BlockReturned(from: int, to: int, start: int, size: int)
    | BlockReverted(from: int, to: int, start: int, size: int, pos: int)
    | Swapped(r1: int, p1: int, r2: int, p2: int)
    | SwapReverted(r1: int, p1: int, r2: int, p2: int)
    | Reversed(r: int, i: int, j: int)
    | ReversalReverted(r: int, i: int, j: int)

  /** The largest block case 0 may move out of a route with avail stations. */
  function BlockLimit(strength: int, avail: int): int {
    Min(strength, Max(1, avail / 2))
  }

  /** A contiguous block of a route's stations, of a size the strength allows,
      to be moved to another route. */
  predicate BlockChoice(routes: seq<Route>, strength: int, f: int, t: int, s: int, k: int) {
    && 0 <= f < |routes| && 0 <= t < |routes| && f != t
    && |routes[f]| > 2 && |routes[t]| >= 1
    && 1 <= k <= BlockLimit(strength, |routes[f]| - 2)
    && 1 <= s && s + k <= |routes[f]| - 1
  }

  function Block(routes: seq<Route>, f: int, s: int, k: int): Route
    requires 0 <= f < |routes| && 0 <= s && 0 <= k && s + k <= |routes[f]|
  {
    routes[f][s..s + k]
  }

  /** The routes after the block moves from route f to position p of route t. */
  function BlockMove(routes: seq<Route>, f: int, t: int, s: int, k: int, p: int): seq<Route>
    requires 0 <= f < |routes| && 0 <= t < |routes| && f != t
    requires 0 <= s && 0 <= k && s + k <= |routes[f]| && 0 <= p <= |routes[t]|
  {
    routes[f := RemoveRange(routes[f], s, k)][t := InsertSeqAt(routes[t], p, Block(routes, f, s, k))]
  }

  /** Two stations, at interior positions of two different routes. */
  predicate SwapChoice(routes: seq<Route>, r1: int, p1: int, r2: int, p2: int) {
    && 0 <= r1 < |routes| && 0 <= r2 < |routes| && r1 != r2
    && |routes[r1]| > 2 && |routes[r2]| > 2
    && 1 <= p1 <= |routes[r1]| - 2 && 1 <= p2 <= |routes[r2]| - 2
  }

  /** A segment i..j of a route of at least five nodes, at most strength + 1
      positions long and clear of the depot at either end. */
  predicate ReverseChoice(routes: seq<Route>, strength: int, r: int, i: int, j: int) {
    && 0 <= r < |routes| && |routes[r]| >= 5
    && 1 <= i <= |routes[r]| - 3
    && i < j <= i + Min(strength, |routes[r]| - i - 2)
    && j <= |routes[r]| - 2
  }

  /** What each branch does to the routes: the chosen edit when it leaves every
      route it checks feasible, the first feasible position for a moved block,
      and the old routes exactly when the edit is undone. */
  ghost predicate Outcome(inst: Instance, routes: seq<Route>, strength: int, kind: Perturbation, routes': seq<Route>) {
    match kind
    case Skipped => routes' == routes
    case BlockMoved(f, t, s, k, p) =>
      && BlockChoice(routes, strength, f, t, s, k) && 1 <= p <= |routes[t]| - 1
      && routes' == BlockMove(routes, f, t, s, k, p)
      && Feasible(inst, routes'[t])
      && forall q :: 1 <= q < p ==> !Feasible(inst, InsertSeqAt(routes[t], q, Block(routes, f, s, k)))
    case BlockReturned(f, t, s, k) =>
      && BlockChoice(routes, strength, f, t, s, k) && routes' == routes
      && forall q :: 1 <= q <= |routes[t]| - 1 ==> !Feasible(inst, InsertSeqAt(routes[t], q, Block(routes, f, s, k)))
    case BlockReverted(f, t, s, k, p) =>
      && BlockChoice(routes, strength, f, t, s, k) && 1 <= p <= |routes[t]| - 1 && routes' == routes
      && Feasible(inst, InsertSeqAt(routes[t], p, Block(routes, f, s, k)))
      && (forall q :: 1 <= q < p ==> !Feasible(inst, InsertSeqAt(routes[t], q, Block(routes, f, s, k))))
      && !Feasible(inst, RemoveRange(routes[f], s, k))
    case Swapped(r1, p1, r2, p2) =>
      && SwapChoice(routes, r1, p1, r2, p2)
      && routes' == SwapNodes(routes, r1, p1, r2, p2)
      && Feasible(inst, routes'[r1]) && Feasible(inst, routes'[r2])
    case SwapReverted(r1, p1, r2, p2) =>
      && SwapChoice(routes, r1, p1, r2, p2) && routes' == routes
      && !(Feasible(inst, SwapNodes(routes, r1, p1, r2, p2)[r1]) && Feasible(inst, SwapNodes(routes, r1, p1, r2, p2)[r2]))
    case Reversed(r, i, j) =>
      && ReverseChoice(routes, strength, r, i, j)
      && routes' == routes[r := ReverseSegment(routes[r], i, j)]
      && Feasible(inst, routes'[r])
    case ReversalReverted(r, i, j) =>
      && ReverseChoice(routes, strength, r, i, j) && routes' == routes
      && !Feasible(inst, ReverseSegment(routes[r], i, j))
  }

  /** An outcome of the corrected case 0, which also keeps a moved block only
      when the route it left stays feasible. */
  ghost predicate CheckedOutcome(inst: Instance, routes: seq<Route>, strength: int, kind: Perturbation, routes': seq<Route>) {
    && Outcome(inst, routes, strength, kind, routes')
    && (kind.BlockMoved? && 0 <= kind.from < |routes'| ==> Feasible(inst, routes'[kind.from]))
  }

  /** The first position 1..|target|-1 at which inserting the block gives a
      feasible route, if there is one. */
  method FirstFeasibleInsertion(inst: Instance, target: Route, block: Route) returns (pos: int, found: bool)
    requires |target| >= 1
    ensures found ==> 1 <= pos <= |target| - 1 && Feasible(inst, InsertSeqAt(target, pos, block))
    ensures found ==> forall q :: 1 <= q < pos ==> !Feasible(inst, InsertSeqAt(target, q, block))
    ensures !found ==> forall q :: 1 <= q <= |target| - 1 ==> !Feasible(inst, InsertSeqAt(target, q, block))
  {
    pos := 1;
    found := false;
    while pos <= |target| - 1 && !found
      invariant 1 <= pos <= |target|
      invariant found ==> pos <= |target| - 1 && Feasible(inst, InsertSeqAt(target, pos, block))
      invariant forall q :: 1 <= q < pos ==> !Feasible(inst, InsertSeqAt(target, q, block))
      decreases |target| - pos + (if found then 0 else 1)
    {
      var test := InsertSeqAt(target, pos, block);
      var info := CheckRouteFeasible(inst, test);
      if info.ok {
        found := true;
      } else {
        pos := pos + 1;
      }
    }
  }

  /** Case 0, inter-route block relocation. The second route is drawn over the
      routes other than the first. */
  method PerturbBlock(inst: Instance, sol: Solution, rng: Rng, strength: int) returns (kind: Perturbation)
    requires inst.Valid() && Shaped(inst, sol.routes) && strength >= 1
    modifies sol, rng
    ensures Outcome(inst, old(sol.routes), strength, kind, sol.routes)
    ensures kind.Skipped? || kind.BlockMoved? || kind.BlockReturned?
    ensures kind.Skipped? ==> |old(sol.routes)| < 2 || exists f :: 0 <= f < |old(sol.routes)| && |old(sol.routes)[f]| <= 2
    ensures sol.totalCost == old(sol.totalCost)
  {
    var n := |sol.routes|;
    if n < 2 {
      return Skipped;
    }
    var from := rng.Next(0, n - 1);
    var other := rng.Next(0, n - 2);
    var to := if other < from then other else other + 1;
    var size := |sol.routes[from]|;
    if size <= 2 {
      return Skipped;
    }
    var avail := size - 2;
    var blockSize := Min(strength, Max(1, avail / 2));
    var selected := rng.Next(1, Min(blockSize, avail));
    var start := rng.Next(1, size - 1 - selected);
    ghost var routes0 := sol.routes;
    var block := sol.routes[from][start..start + selected];
    assert block == Block(routes0, from, start, selected);
    sol.routes := sol.routes[from := RemoveRange(sol.routes[from], start, selected)];
    assert sol.routes[to] == routes0[to];
    var pos, inserted := FirstFeasibleInsertion(inst, sol.routes[to], block);
    if inserted {
      sol.routes := sol.routes[to := InsertSeqAt(sol.routes[to], pos, block)];
      kind := BlockMoved(from, to, start, selected, pos);
      BlockMovedOutcome(inst, routes0, strength, from, to, start, selected, pos, sol.routes);
    } else {
      sol.routes := sol.routes[from := InsertSeqAt(sol.routes[from], start, block)];
      InsertSeqRemove(routes0[from], start, selected);
      UpdateTwice(routes0, from, RemoveRange(routes0[from], start, selected), routes0[from]);
      UpdateSame(routes0, from);
      kind := BlockReturned(from, to, start, selected);
      BlockReturnedOutcome(inst, routes0, strength, from, to, start, selected, sol.routes);
    }
  }

  lemma BlockMovedOutcome(inst: Instance, routes: seq<Route>, strength: int, f: int, t: int, s: int, k: int, p: int,
                          routes': seq<Route>)
    requires BlockChoice(routes, strength, f, t, s, k) && 1 <= p <= |routes[t]| - 1
    requires routes' == routes[f := RemoveRange(routes[f], s, k)][t := InsertSeqAt(routes[t], p, Block(routes, f, s, k))]
    requires Feasible(inst, InsertSeqAt(routes[t], p, Block(routes, f, s, k)))
    requires forall q :: 1 <= q < p ==> !Feasible(inst, InsertSeqAt(routes[t], q, Block(routes, f, s, k)))
    ensures Outcome(inst, routes, strength, BlockMoved(f, t, s, k, p), routes')
  {
  }

  lemma BlockReturnedOutcome(inst: Instance, routes: seq<Route>, strength: int, f: int, t: int, s: int, k: int,
                             routes': seq<Route>)
    requires BlockChoice(routes, strength, f, t, s, k) && routes' == routes
    requires forall q :: 1 <= q <= |routes[t]| - 1 ==> !Feasible(inst, InsertSeqAt(routes[t], q, Block(routes, f, s, k)))
    ensures Outcome(inst, routes, strength, BlockReturned(f, t, s, k), routes')
  {
  }

  /** Case 0 with the route the block leaves checked as well: the draws and the
      search of PerturbBlock, and both routes put back when the shortened source
      route is infeasible. */
  method PerturbBlockCorrected(inst: Instance, sol: Solution, rng: Rng, strength: int) returns (kind: Perturbation)
    requires inst.Valid() && Shaped(inst, sol.routes) && strength >= 1
    modifies sol, rng
    ensures CheckedOutcome(inst, old(sol.routes), strength, kind, sol.routes)
    ensures kind.Skipped? || kind.BlockMoved? || kind.BlockReturned? || kind.BlockReverted?
    ensures kind.Skipped? ==> |old(sol.routes)| < 2 || exists f :: 0 <= f < |old(sol.routes)| && |old(sol.routes)[f]| <= 2
    ensures sol.totalCost == old(sol.totalCost)
  {
    var n := |sol.routes|;
    if n < 2 {
      return Skipped;
    }
    var from := rng.Next(0, n - 1);
    var other := rng.Next(0, n - 2);
    var to := if other < from then other else other + 1;
    var size := |sol.routes[from]|;
    if size <= 2 {
      return Skipped;
    }
    var avail := size - 2;
    var blockSize := Min(strength, Max(1, avail / 2));
    var selected := rng.Next(1, Min(blockSize, avail));
    var start := rng.Next(1, size - 1 - selected);
    kind := MoveBlockChecked(inst, sol, strength, from, to, start, selected);
  }

  /** Cut the block, insert it at the first feasible position of the target, and
      undo both edits unless some position fits and the cut route is feasible. */
  method MoveBlockChecked(inst: Instance, sol: Solution, strength: int, from: int, to: int, start: int, selected: int)
    returns (kind: Perturbation)
    requires BlockChoice(sol.routes, strength, from, to, start, selected)
    modifies sol
    ensures kind.BlockMoved? || kind.BlockReturned? || kind.BlockReverted?
    ensures kind.from == from && kind.to == to && kind.start == start && kind.size == selected
    ensures CheckedOutcome(inst, old(sol.routes), strength, kind, sol.routes)
    ensures sol.totalCost == old(sol.totalCost)
  {
    ghost var routes0 := sol.routes;
    var block := sol.routes[from][start..start + selected];
    var source := sol.routes[from];
    var target := sol.routes[to];
    assert block == Block(routes0, from, start, selected);
    var cut := RemoveRange(source, start, selected);
    var pos, inserted := FirstFeasibleInsertion(inst, target, block);
    var info := CheckRouteFeasible(inst, cut);
    if inserted && info.ok {
      sol.routes := sol.routes[from := cut][to := InsertSeqAt(target, pos, block)];
      kind := BlockMoved(from, to, start, selected, pos);
      BlockMovedOutcome(inst, routes0, strength, from, to, start, selected, pos, sol.routes);
    } else if inserted {
      kind := BlockReverted(from, to, start, selected, pos);
    } else {
      kind := BlockReturned(from, to, start, selected);
      BlockReturnedOutcome(inst, routes0, strength, from, to, start, selected, sol.routes);
    }
  }

  /** The corrected case 0, like the swap and the reversal, leaves every route
      of a feasible solution feasible. */
  lemma CheckedOutcomeFeasible(inst: Instance, routes: seq<Route>, strength: int, kind: Perturbation, routes': seq<Route>)
    requires AllFeasible(inst, routes) && CheckedOutcome(inst, routes, strength, kind, routes')
    ensures AllFeasible(inst, routes')
  {
    OutcomeFeasibility(inst, routes, strength, kind, routes');
  }

  /** The indices of the routes that hold at least one station, in ascending order. */
  method LongRoutes(routes: seq<Route>) returns (valid: seq<int>)
    ensures forall a :: 0 <= a < |valid| ==> 0 <= valid[a] < |routes| && |routes[valid[a]]| > 2
    ensures forall k :: 0 <= k < |routes| && |routes[k]| > 2 ==> k in valid
    ensures forall a, b :: 0 <= a < b < |valid| ==> valid[a] < valid[b]
  {
    valid := [];
    var i := 0;
    while i < |routes|
      invariant 0 <= i <= |routes|
      invariant forall a :: 0 <= a < |valid| ==> 0 <= valid[a] < i && |routes[valid[a]]| > 2
      invariant forall k :: 0 <= k < i && |routes[k]| > 2 ==> k in valid
      invariant forall a, b :: 0 <= a < b < |valid| ==> valid[a] < valid[b]
    {
      if |routes[i]| > 2 {
        valid := valid + [i];
      }
      i := i + 1;
    }
  }

  /** A list of fewer than two indices that holds every route with a station
      leaves room for one such route at most. */
  lemma FewLongRoutes(routes: seq<Route>, valid: seq<int>)
    requires forall k :: 0 <= k < |routes| && |routes[k]| > 2 ==> k in valid
    requires |valid| < 2
    ensures forall a, b :: 0 <= a < |routes| && 0 <= b < |routes| && |routes[a]| > 2 && |routes[b]| > 2 ==> a == b
  {
    forall a, b | 0 <= a < |routes| && 0 <= b < |routes| && |routes[a]| > 2 && |routes[b]| > 2
      ensures a == b
    {
      assert a in valid && b in valid;
      assert valid[0] == a;
    }
  }

  /** Case 1, inter-route swap of two stations, undone unless both routes stay
      feasible. The second route is drawn over the non-empty routes other than
      the first. */
  method PerturbSwap(inst: Instance, sol: Solution, rng: Rng, strength: int) returns (kind: Perturbation)
    requires inst.Valid() && Shaped(inst, sol.routes)
    modifies sol, rng
    ensures Outcome(inst, old(sol.routes), strength, kind, sol.routes)
    ensures kind.Skipped? || kind.Swapped? || kind.SwapReverted?
    ensures kind.Skipped? ==> forall a, b :: (0 <= a < |old(sol.routes)| && 0 <= b < |old(sol.routes)|
      && |old(sol.routes)[a]| > 2 && |old(sol.routes)[b]| > 2) ==> a == b
    ensures sol.totalCost == old(sol.totalCost)
  {
    var n := |sol.routes|;
    if n < 2 {
      return Skipped;
    }
    var valid := LongRoutes(sol.routes);
    if |valid| < 2 {
      FewLongRoutes(sol.routes, valid);
      return Skipped;
    }
    var idx1 := rng.Next(0, |valid| - 1);
    var other := rng.Next(0, |valid| - 2);
    var idx2 := if other < idx1 then other else other + 1;
    var r1 := valid[idx1];
    var r2 := valid[idx2];
    var pos1 := rng.Next(1, |sol.routes[r1]| - 2);
    var pos2 := rng.Next(1, |sol.routes[r2]| - 2);
    kind := SwapOrRevert(inst, sol, strength, r1, pos1, r2, pos2);
  }

  /** Exchange the two stations, check both routes, and put both stations back
      unless both routes are feasible. */
  method SwapOrRevert(inst: Instance, sol: Solution, strength: int, r1: int, pos1: int, r2: int, pos2: int)
    returns (kind: Perturbation)
    requires SwapChoice(sol.routes, r1, pos1, r2, pos2)
    modifies sol
    ensures kind == Swapped(r1, pos1, r2, pos2) || kind == SwapReverted(r1, pos1, r2, pos2)
    ensures Outcome(inst, old(sol.routes), strength, kind, sol.routes)
    ensures sol.totalCost == old(sol.totalCost)
  {
    ghost var routes0 := sol.routes;
    var station1 := sol.routes[r1][pos1];
    var station2 := sol.routes[r2][pos2];
    sol.routes := sol.routes[r1 := sol.routes[r1][pos1 := station2]];
    sol.routes := sol.routes[r2 := sol.routes[r2][pos2 := station1]];
    assert sol.routes == SwapNodes(routes0, r1, pos1, r2, pos2);
    var info1 := CheckRouteFeasible(inst, sol.routes[r1]);
    var info2 := CheckRouteFeasible(inst, sol.routes[r2]);
    if !info1.ok || !info2.ok {
      sol.routes := sol.routes[r1 := sol.routes[r1][pos1 := station1]];
      sol.routes := sol.routes[r2 := sol.routes[r2][pos2 := station2]];
      SwapNodesAt(routes0, r1, pos1, r2, pos2);
      assert sol.routes == SwapNodes(SwapNodes(routes0, r1, pos1, r2, pos2), r1, pos1, r2, pos2);
      kind := SwapReverted(r1, pos1, r2, pos2);
    } else {
      kind := Swapped(r1, pos1, r2, pos2);
    }
  }

  /** Case 2, reversal of a segment of one route, undone if the route becomes
      infeasible. The end of the segment never reaches the closing depot, so the
      guard against that case never fires and is not modelled. */
  method PerturbReverse(inst: Instance, sol: Solution, rng: Rng, strength: int) returns (kind: Perturbation)
    requires inst.Valid() && Shaped(inst, sol.routes) && |sol.routes| >= 1 && strength >= 1
    modifies sol, rng
    ensures Outcome(inst, old(sol.routes), strength, kind, sol.routes)
    ensures kind.Skipped? || kind.Reversed? || kind.ReversalReverted?
    ensures kind.Skipped? ==> exists r :: 0 <= r < |old(sol.routes)| && |old(sol.routes)[r]| < 5
    ensures sol.totalCost == old(sol.totalCost)
  {
    var r := rng.Next(0, |sol.routes| - 1);
    var size := |sol.routes[r]|;
    if size < 5 {
      return Skipped;
    }
    var pos1 := rng.Next(1, size - 3);
    var raw := rng.Raw();
    var pos2 := pos1 + 1 + raw % Min(strength, size - pos1 - 2);
    kind := ReverseOrRevert(inst, sol, strength, r, pos1, pos2);
  }

  /** Reverse the segment, check the route, and reverse it back if it became
      infeasible. */
  method ReverseOrRevert(inst: Instance, sol: Solution, strength: int, r: int, pos1: int, pos2: int)
    returns (kind: Perturbation)
    requires ReverseChoice(sol.routes, strength, r, pos1, pos2)
    modifies sol
    ensures kind == Reversed(r, pos1, pos2) || kind == ReversalReverted(r, pos1, pos2)
    ensures Outcome(inst, old(sol.routes), strength, kind, sol.routes)
    ensures sol.totalCost == old(sol.totalCost)
  {
    var routes0 := sol.routes;
    var rev := ReverseSegment(routes0[r], pos1, pos2);
    var routes1 := routes0[r := rev];
    sol.routes := routes1;
    var info := CheckRouteFeasible(inst, rev);
    if !info.ok {
      ReverseBack(sol, routes0, r, pos1, pos2);
      kind := ReversalReverted(r, pos1, pos2);
    } else {
      kind := Reversed(r, pos1, pos2);
    }
    ReversalOutcome(inst, routes0, strength, kind, sol.routes);
  }

  lemma ReversalOutcome(inst: Instance, routes: seq<Route>, strength: int, kind: Perturbation, routes': seq<Route>)
    requires kind.Reversed? || kind.ReversalReverted?
    requires ReverseChoice(routes, strength, kind.r, kind.i, kind.j)
    requires kind.Reversed? ==>
      routes' == routes[kind.r := ReverseSegment(routes[kind.r], kind.i, kind.j)] && Feasible(inst, routes'[kind.r])
    requires kind.ReversalReverted? ==> routes' == routes && !Feasible(inst, ReverseSegment(routes[kind.r], kind.i, kind.j))
    ensures Outcome(inst, routes, strength, kind, routes')
  {
  }

  /** Cutting an interior block out of a route keeps its ends and node range. */
  lemma CutInterior(inst: Instance, r: Route, s: int, k: int)
    requires InRange(inst, r) && 1 <= s && 0 <= k && s + k <= |r| - 1
    ensures InRange(inst, RemoveRange(r, s, k)) && |RemoveRange(r, s, k)| >= 1
    ensures RemoveRange(r, s, k)[0] == r[0] && RemoveRange(r, s, k)[|r| - k - 1] == r[|r| - 1]
  {
    var cut := RemoveRange(r, s, k);
    forall q | 0 <= q < |cut| ensures inst.IsNode(cut[q]) {
      if q >= s { assert cut[q] == r[q + k]; }
    }
  }

  /** Inserting a block of nodes at an interior position keeps the ends and the
      node range. */
  lemma InsertInterior(inst: Instance, r: Route, p: int, b: Route)
    requires InRange(inst, r) && InRange(inst, b) && 1 <= p <= |r| - 1
    ensures InRange(inst, InsertSeqAt(r, p, b))
    ensures InsertSeqAt(r, p, b)[0] == r[0] && InsertSeqAt(r, p, b)[|r| + |b| - 1] == r[|r| - 1]
  {
    var grown := InsertSeqAt(r, p, b);
    forall q | 0 <= q < |grown| ensures inst.IsNode(grown[q]) {
      if q < p {
      } else if q < p + |b| {
        assert grown[p + (q - p)] == b[q - p];
      } else {
        assert grown[q] == r[q - |b|];
      }
    }
  }

  /** A moved block keeps the node multiset. */
  lemma BlockMoveNodes(routes: seq<Route>, f: int, t: int, s: int, k: int, p: int)
    requires 0 <= f < |routes| && 0 <= t < |routes| && f != t
    requires 0 <= s && 0 <= k && s + k <= |routes[f]| && 0 <= p <= |routes[t]|
    ensures Nodes(BlockMove(routes, f, t, s, k, p)) == Nodes(routes)
  {
    var b := Block(routes, f, s, k);
    RemoveRangeNodes(routes[f], s, k);
    InsertSeqAtNodes(routes[t], p, b);
    NodesUpdate2(routes, f, RemoveRange(routes[f], s, k), t, InsertSeqAt(routes[t], p, b));
  }

  /** A moved block keeps the node ranges and the route ends. */
  lemma BlockMoveShape(inst: Instance, routes: seq<Route>, strength: int, f: int, t: int, s: int, k: int, p: int)
    requires Shaped(inst, routes) && BlockChoice(routes, strength, f, t, s, k) && 1 <= p <= |routes[t]| - 1
    ensures Shaped(inst, BlockMove(routes, f, t, s, k, p)) && SameEnds(routes, BlockMove(routes, f, t, s, k, p))
  {
    var b := Block(routes, f, s, k);
    var routes' := BlockMove(routes, f, t, s, k, p);
    CutInterior(inst, routes[f], s, k);
    assert InRange(inst, b) by {
      forall q | 0 <= q < |b| ensures inst.IsNode(b[q]) {
        assert b[q] == routes[f][s + q];
      }
    }
    InsertInterior(inst, routes[t], p, b);
    assert routes'[f] == RemoveRange(routes[f], s, k) && routes'[t] == InsertSeqAt(routes[t], p, b);
    assert forall q :: 0 <= q < |routes| && q != f && q != t ==> routes'[q] == routes[q];
  }

  /** A swap of two interior stations keeps the node multiset, the ranges and
      the route ends. */
  lemma SwapKeeps(inst: Instance, routes: seq<Route>, r1: int, p1: int, r2: int, p2: int)
    requires Shaped(inst, routes) && SwapChoice(routes, r1, p1, r2, p2)
    ensures Shaped(inst, SwapNodes(routes, r1, p1, r2, p2)) && SameEnds(routes, SwapNodes(routes, r1, p1, r2, p2))
    ensures Nodes(SwapNodes(routes, r1, p1, r2, p2)) == Nodes(routes)
  {
    SwapNodesAt(routes, r1, p1, r2, p2);
    SwapMultiset(routes, r1, p1, r2, p2);
    SwapEnds(routes, r1, p1, r2, p2);
    var a := routes[r1][p1 := routes[r2][p2]];
    assert InRange(inst, a) by {
      forall q | 0 <= q < |a| ensures inst.IsNode(a[q]) {
        if q != p1 { assert a[q] == routes[r1][q]; }
      }
    }
    ReplaceInRange(inst, routes, r1, a);
    var b := routes[r2][p2 := routes[r1][p1]];
    assert InRange(inst, b) by {
      forall q | 0 <= q < |b| ensures inst.IsNode(b[q]) {
        if q != p2 { assert b[q] == routes[r2][q]; }
      }
    }
    ReplaceInRange(inst, routes[r1 := a], r2, b);
  }

  /** A segment reversal keeps the node multiset, the ranges and the route ends. */
  lemma ReverseKeeps(inst: Instance, routes: seq<Route>, strength: int, r: int, i: int, j: int)
    requires Shaped(inst, routes) && ReverseChoice(routes, strength, r, i, j)
    ensures Shaped(inst, routes[r := ReverseSegment(routes[r], i, j)])
    ensures SameEnds(routes, routes[r := ReverseSegment(routes[r], i, j)])
    ensures Nodes(routes[r := ReverseSegment(routes[r], i, j)]) == Nodes(routes)
  {
    var rev := ReverseSegment(routes[r], i, j);
    var routes' := routes[r := rev];
    ReverseSegmentNodes(routes[r], i, j);
    NodesReplaceSame(routes, r, rev);
    ReverseInRange(inst, routes[r], i, j);
    ReplaceInRange(inst, routes, r, rev);
    assert rev[0] == routes[r][0];
    assert rev[|rev| - 1] == routes[r][|routes[r]| - 1];
    ReplaceKeepsEnds(routes, r, rev);
    assert forall k :: 0 <= k < |routes'| ==> |routes'[k]| >= 1;
  }

  lemma ReverseInRange(inst: Instance, s: Route, i: int, j: int)
    requires InRange(inst, s) && 0 <= i <= j < |s|
    ensures InRange(inst, ReverseSegment(s, i, j))
  {
    var rev := ReverseSegment(s, i, j);
    forall q | 0 <= q < |rev| ensures inst.IsNode(rev[q]) {
      if i <= q <= j { assert rev[q] == s[i + j - q]; }
    }
  }

  /** Whatever branch runs, the perturbation keeps every node where the routes
      can hold it and the depot at both ends of every route. */
  lemma OutcomeKeeps(inst: Instance, routes: seq<Route>, strength: int, kind: Perturbation, routes': seq<Route>)
    requires Shaped(inst, routes) && Outcome(inst, routes, strength, kind, routes')
    ensures Shaped(inst, routes') && SameEnds(routes, routes') && Nodes(routes') == Nodes(routes)
  {
    match kind {
      case Skipped =>
      case BlockMoved(f, t, s, k, p) =>
        BlockMoveNodes(routes, f, t, s, k, p);
        BlockMoveShape(inst, routes, strength, f, t, s, k, p);
      case BlockReturned(_, _, _, _) =>
      case BlockReverted(_, _, _, _, _) =>
      case Swapped(r1, p1, r2, p2) => SwapKeeps(inst, routes, r1, p1, r2, p2);
      case SwapReverted(_, _, _, _) =>
      case Reversed(r, i, j) => ReverseKeeps(inst, routes, strength, r, i, j);
      case ReversalReverted(_, _, _) =>
    }
  }

  /** The only route the perturbation can make infeasible is the source route of
      a moved block. */
  lemma OutcomeFeasibility(inst: Instance, routes: seq<Route>, strength: int, kind: Perturbation, routes': seq<Route>)
    requires AllFeasible(inst, routes) && Outcome(inst, routes, strength, kind, routes')
    ensures |routes'| == |routes|
    ensures forall k :: 0 <= k < |routes'| && !(kind.BlockMoved? && k == kind.from) ==> Feasible(inst, routes'[k])
  {
    match kind {
      case Skipped =>
      case BlockMoved(f, t, s, k, p) =>
      case BlockReturned(_, _, _, _) =>
      case BlockReverted(_, _, _, _, _) =>
      case Swapped(r1, p1, r2, p2) => SwapFeasible(inst, routes, r1, p1, r2, p2);
      case SwapReverted(_, _, _, _) =>
      case Reversed(r, i, j) => ReplaceFeasible(inst, routes, r, routes'[r]);
      case ReversalReverted(_, _, _) =>
    }
  }

  /** Stations 1..4 with demands +5, -5, +5, -5, capacity 5, zero travel costs. */
  function AlternatingInstance(): (inst: Instance)
    ensures inst.Valid() && inst.NonNegativeCosts()
  {
    var row := [0, 0, 0, 0, 0];
    Instance(4, 2, 5, [5, -5, 5, -5], [row, row, row, row, row])
  }

  /** The loads along [0, 1, 2, 3, 4, 0] are +5, 0, +5, 0. */
  lemma AlternatingRouteFeasible()
    ensures Feasible(AlternatingInstance(), [0, 1, 2, 3, 4, 0])
  {
    var inst := AlternatingInstance();
    assert Interior([0, 1, 2, 3, 4, 0]) == [1, 2, 3, 4];
    assert [1, 2, 3, 4][..3] == [1, 2, 3] && [1, 2, 3][..2] == [1, 2] && [1, 2][..1] == [1] && [1][..0] == [];
    assert DemandSum(inst, [1]) == 5 && DemandSum(inst, [1, 2]) == 0;
    assert DemandSum(inst, [1, 2, 3]) == 5 && DemandSum(inst, [1, 2, 3, 4]) == 0;
    assert MaxPrefix(inst, [1, 2, 3, 4]) == 5 && MinPrefix(inst, [1, 2, 3, 4]) == 0;
  }

  /** The loads along [0, 1, 3, 4, 0] are +5, +10, +5: their span exceeds 5. */
  lemma AlternatingCutInfeasible()
    ensures !Feasible(AlternatingInstance(), [0, 1, 3, 4, 0])
  {
    var inst := AlternatingInstance();
    assert Interior([0, 1, 3, 4, 0]) == [1, 3, 4];
    assert [1, 3, 4][..2] == [1, 3] && [1, 3][..1] == [1] && [1][..0] == [];
    assert MaxPrefix(inst, [1, 3, 4]) >= DemandSum(inst, [1, 3]) == 10;
  }

  /** Moving the second station of a feasible route to an empty route is a valid
      outcome of case 0, and it leaves the source route infeasible. */
  lemma BlockMoveCanBreakSource()
    ensures AllFeasible(AlternatingInstance(), [[0, 1, 2, 3, 4, 0], [0, 0]])
    ensures Outcome(AlternatingInstance(), [[0, 1, 2, 3, 4, 0], [0, 0]], 1, BlockMoved(0, 1, 2, 1, 1),
                    [[0, 1, 3, 4, 0], [0, 2, 0]])
    ensures !Feasible(AlternatingInstance(), [0, 1, 3, 4, 0])
  {
    var inst := AlternatingInstance();
    var routes := [[0, 1, 2, 3, 4, 0], [0, 0]];
    AlternatingRouteFeasible();
    AlternatingCutInfeasible();
    assert Interior([0, 0]) == [];
    assert Interior([0, 2, 0]) == [2] && [2][..0] == [];
    assert Feasible(inst, [0, 2, 0]);
    assert Block(routes, 0, 2, 1) == [2];
    assert RemoveRange(routes[0], 2, 1) == [0, 1, 3, 4, 0];
    assert InsertSeqAt(routes[1], 1, [2]) == [0, 2, 0];
    assert BlockMove(routes, 0, 1, 2, 1, 1) == [[0, 1, 3, 4, 0], [0, 2, 0]];
  }

  /** ApplyRandomPerturbation: nothing on an empty solution; otherwise one of
      the three cases, drawn uniformly, and the total cost recomputed unless the
      case returned early. Case 0 is the corrected one, so a feasible solution
      stays feasible. */
  method ApplyRandomPerturbation(inst: Instance, sol: Solution, rng: Rng, strength: int) returns (kind: Perturbation)
    requires inst.Valid() && Shaped(inst, sol.routes) && strength >= 1
    modifies sol, rng
    ensures Outcome(inst, old(sol.routes), strength, kind, sol.routes)
    ensures Shaped(inst, sol.routes) && SameEnds(old(sol.routes), sol.routes)
    ensures Nodes(sol.routes) == Nodes(old(sol.routes))
    ensures old(sol.routes) == [] ==> kind.Skipped?
    ensures kind.Skipped? ==> sol.totalCost == old(sol.totalCost)
    ensures !kind.Skipped? ==> sol.totalCost == SolutionCost(inst, sol.routes)
    ensures AllFeasible(inst, old(sol.routes)) ==> AllFeasible(inst, sol.routes)
  {
    if |sol.routes| == 0 {
      return Skipped;
    }
    ghost var routes1;
    kind, routes1 := PerturbOnce(inst, sol, rng, strength);
    if !kind.Skipped? {
      sol.totalCost := ComputeSolutionCost(inst, sol.routes);
    }
    assert sol.routes == routes1;
  }

  /** The uniform draw among the three perturbation cases; the recorded total
      is left for the caller to recompute. */
  method PerturbOnce(inst: Instance, sol: Solution, rng: Rng, strength: int)
    returns (kind: Perturbation, ghost routes1: seq<Route>)
    requires inst.Valid() && Shaped(inst, sol.routes) && |sol.routes| >= 1 && strength >= 1
    modifies sol, rng
    ensures routes1 == sol.routes
    ensures CheckedOutcome(inst, old(sol.routes), strength, kind, routes1)
    ensures Shaped(inst, routes1) && SameEnds(old(sol.routes), routes1) && Nodes(routes1) == Nodes(old(sol.routes))
    ensures AllFeasible(inst, old(sol.routes)) ==> AllFeasible(inst, routes1)
    ensures sol.totalCost == old(sol.totalCost)
  {
    ghost var routes0 := sol.routes;
    var strategy := rng.Next(0, 2);
    if strategy == 0 {
      kind := PerturbBlockCorrected(inst, sol, rng, strength);
    } else if strategy == 1 {
      kind := PerturbSwap(inst, sol, rng, strength);
    } else {
      kind := PerturbReverse(inst, sol, rng, strength);
    }
    routes1 := sol.routes;
    OutcomeKeeps(inst, routes0, strength, kind, routes1);
    if AllFeasible(inst, routes0) {
      CheckedOutcomeFeasible(inst, routes0, strength, kind, routes1);
    }
  }

  /** A solution that refinement leaves as it is: its recorded total is its
      cost, and no operator can beat it. */
  ghost predicate Refined(inst: Instance, sol: Solution)
    reads sol
    requires inst.Valid()
  {
    && Shaped(inst, sol.routes) && 0 <= sol.totalCost && sol.totalCost == SolutionCost(inst, sol.routes)
    && forall nb :: StalledOn(inst, sol.routes, sol.totalCost, AllRoutes, nb)
  }

  /** One attempt of the inner loop: a perturbed copy of the solution, refined
      by the partitioned VND. The solution itself is left as it is. */
  method PerturbAndRefine(inst: Instance, rng: Rng, strength: int, sol: Solution) returns (refined: Solution)
    requires inst.Valid() && inst.NonNegativeCosts() && strength >= 1 && Shaped(inst, sol.routes)
    modifies rng
    ensures Refined(inst, refined) && Nodes(refined.routes) == Nodes(sol.routes)
    ensures AllFeasible(inst, sol.routes) ==> AllFeasible(inst, refined.routes)
  {
    var perturbed := new Solution(sol.routes, sol.totalCost);
    var _ := ApplyRandomPerturbation(inst, perturbed, rng, strength);
    refined := VND(inst, perturbed, rng, GetAllNeighborhoods());
  }

  /** The start of an outer iteration: a GRASP solution refined by the
      partitioned VND. */
  method BuildAndRefine(inst: Instance, rng: Rng, alpha: real) returns (refined: Solution)
    requires inst.Valid() && inst.NonNegativeCosts() && alpha >= 0.0
    modifies rng
    ensures Refined(inst, refined)
    ensures inst.Q >= 0 ==> AllFeasible(inst, refined.routes)
  {
    var initial;
    ghost var run, passes;
    initial, run, passes := BuildInitialGrasp(inst, rng, alpha);
    refined := VND(inst, initial, rng, GetAllNeighborhoods());
  }

  /** The inner loop: perturb a copy of the current best, refine it, and accept
      it on a strict improvement, which resets the stall counter. It ends after
      maxIterIls attempts in a row that improved nothing. The global best never
      rises, stays at or below the current best and every refined cost, and is
      either its start or one of those costs. */
  method Intensify(inst: Instance, rng: Rng, p: Params, best0: Solution)
    returns (best: Solution, current: Solution, ghost tried: seq<int>)
    requires inst.Valid() && inst.NonNegativeCosts() && p.perturbStrength >= 1
    requires Refined(inst, best0)
    modifies rng
    ensures Refined(inst, best) && Refined(inst, current)
    ensures Nodes(best.routes) == Nodes(best0.routes) && Nodes(current.routes) == Nodes(best0.routes)
    ensures AllFeasible(inst, best0.routes) ==> AllFeasible(inst, best.routes) && AllFeasible(inst, current.routes)
    ensures best.totalCost <= current.totalCost && best.totalCost <= best0.totalCost
    ensures forall c :: c in tried ==> best.totalCost <= c
    ensures best.totalCost == best0.totalCost || best.totalCost in tried
    ensures p.maxIterIls >= 0 ==> |tried| >= p.maxIterIls
    ensures forall k :: 0 <= k < |tried| && |tried| - p.maxIterIls <= k ==> current.totalCost <= tried[k]
  {
    best := best0;
    current := new Solution(best0.routes, best0.totalCost);
    tried := [];
    var stall := 0;
    while stall < p.maxIterIls
      invariant 0 <= stall <= |tried| && (p.maxIterIls >= 0 ==> stall <= p.maxIterIls)
      invariant Refined(inst, best) && Refined(inst, current)
      invariant Nodes(best.routes) == Nodes(best0.routes) && Nodes(current.routes) == Nodes(best0.routes)
      invariant AllFeasible(inst, best0.routes) ==> AllFeasible(inst, best.routes) && AllFeasible(inst, current.routes)
      invariant best.totalCost <= current.totalCost && best.totalCost <= best0.totalCost
      invariant forall c :: c in tried ==> best.totalCost <= c
      invariant best.totalCost == best0.totalCost || best.totalCost in tried
      invariant forall k :: |tried| - stall <= k < |tried| ==> current.totalCost <= tried[k]
      decreases current.totalCost, p.maxIterIls - stall
    {
      var refined := PerturbAndRefine(inst, rng, p.perturbStrength, current);
      ghost var prev := tried;
      ghost var bound := best.totalCost;
      tried := prev + [refined.totalCost];
      if refined.totalCost < current.totalCost {
        current := refined;
        stall := 0;
        if current.totalCost < best.totalCost {
          best := current;
        }
      } else {
        StreakExtend(prev, stall, refined.totalCost, current.totalCost);
        stall := stall + 1;
      }
      BoundAppend(prev, refined.totalCost, bound, best.totalCost);
    }
  }

  /** A lower bound of the earlier attempts that also bounds the new one. */
  lemma BoundAppend(tried: seq<int>, c: int, bound: int, bound': int)
    requires forall x :: x in tried ==> bound <= x
    requires bound' <= bound && bound' <= c
    ensures forall x :: x in tried + [c] ==> bound' <= x
  {
  }

  /** One more attempt that did not beat the bound extends the streak of such attempts. */
  lemma StreakExtend(tried: seq<int>, stall: int, c: int, bound: int)
    requires 0 <= stall <= |tried| && bound <= c
    requires forall k :: |tried| - stall <= k < |tried| ==> bound <= tried[k]
    ensures forall k :: |tried + [c]| - (stall + 1) <= k < |tried + [c]| ==> bound <= (tried + [c])[k]
  {
  }

  /** A lower bound of two lists of costs bounds their concatenation. */
  lemma BoundConcat(xs: seq<int>, ys: seq<int>, b: int)
    requires forall c :: c in xs ==> b <= c
    requires forall c :: c in ys ==> b <= c
    ensures forall c :: c in xs + ys ==> b <= c
  {
  }

  /** ILS over maxIter outer iterations. found is false only when there is no
      iteration, the case in which the source returns a solution of infinite
      cost. Otherwise the best solution is a refined one whose cost is the least
      of all the refined costs seen, and with a non-negative capacity every one
      of its routes is feasible. The GRASP alpha of iteration t is alphaOf(t). */
  method ILS(inst: Instance, rng: Rng, p: Params, alphaOf: int -> real)
    returns (best: Solution, found: bool, ghost seen: seq<int>)
    requires inst.Valid() && inst.NonNegativeCosts() && p.perturbStrength >= 1
    requires 0.0 <= p.alphaMin && forall t :: p.alphaMin <= alphaOf(t) <= p.alphaMax
    modifies rng
    ensures found <==> p.maxIter >= 1
    ensures found ==> Refined(inst, best)
    ensures found ==> best.totalCost in seen && forall c :: c in seen ==> best.totalCost <= c
    ensures found && inst.Q >= 0 ==> AllFeasible(inst, best.routes)
  {
    best := new Solution([], 0);
    found := false;
    seen := [];
    var t := 1;
    while t <= p.maxIter
      invariant 1 <= t <= Max(p.maxIter, 0) + 1
      invariant found <==> t > 1
      invariant !found ==> seen == []
      invariant found ==> Refined(inst, best)
      invariant found ==> best.totalCost in seen && forall c :: c in seen ==> best.totalCost <= c
      invariant found && inst.Q >= 0 ==> AllFeasible(inst, best.routes)
    {
      var alpha := alphaOf(t);
      var current := BuildAndRefine(inst, rng, alpha);
      seen := seen + [current.totalCost];
      if !found || current.totalCost < best.totalCost {
        best := current;
        found := true;
      }
      var currentBest;
      ghost var tried;
      ghost var before := seen;
      ghost var start := best.totalCost;
      assert forall c :: c in before ==> start <= c;
      best, currentBest, tried := Intensify(inst, rng, p, best);
      assert forall c :: c in before ==> best.totalCost <= c;
      seen := seen + tried;
      BoundConcat(before, tried, best.totalCost);
      t := t + 1;
    }
  }
}
