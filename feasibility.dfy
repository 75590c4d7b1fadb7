/** The capacity-feasibility engine: load bounds of one route from the prefix
    sums of its demands, and the coverage test of a whole route set. */
module Feasibility {
  import opened Instance
  import opened Routes

  /** NodeDemand: nothing at the depot, otherwise the demand of station node - 1,
      read as 0 outside the demand vector. */
  function NodeDemand(inst: Instance, node: int): (d: int)
    ensures node == 0 ==> d == 0
    ensures node != 0 && 1 <= node <= |inst.demand| ==> d == inst.demand[node - 1]
    ensures node != 0 && (node < 1 || node > |inst.demand|) ==> d == 0
  {
    if node == 0 then 0 else inst.StationDemand(node - 1)
  }

  /** Net load change after visiting the nodes of s in order. */
  function DemandSum(inst: Instance, s: seq<int>): int {
    if s == [] then 0 else DemandSum(inst, s[..|s| - 1]) + NodeDemand(inst, s[|s| - 1])
  }

  function Max(a: int, b: int): int {
    if a < b then b else a
  }

  function Min(a: int, b: int): int {
    if a < b then a else b
  }

  /** std::clamp(v, lo, hi) as the usual library implementation computes it. */
  function Clamp(v: int, lo: int, hi: int): int {
    if v < lo then lo else if hi < v then hi else v
  }

  /** The running maximum of the prefix sums of s, starting from 0. */
  function MaxPrefix(inst: Instance, s: seq<int>): (mx: int)
    ensures mx >= 0
  {
    if s == [] then 0 else Max(MaxPrefix(inst, s[..|s| - 1]), DemandSum(inst, s))
  }

  /** The running minimum of the prefix sums of s, starting from 0. */
  function MinPrefix(inst: Instance, s: seq<int>): (mn: int)
    ensures mn <= 0
  {
    if s == [] then 0 else Min(MinPrefix(inst, s[..|s| - 1]), DemandSum(inst, s))
  }

  /** The scan really computes the largest and the smallest prefix sum: both are
      bounds of every prefix sum, and both are attained by some prefix. */
  lemma {:induction false} PrefixBounds(inst: Instance, s: seq<int>)
    ensures forall k :: 0 <= k <= |s| ==> MinPrefix(inst, s) <= DemandSum(inst, s[..k]) <= MaxPrefix(inst, s)
    ensures exists k :: 0 <= k <= |s| && DemandSum(inst, s[..k]) == MaxPrefix(inst, s)
    ensures exists k :: 0 <= k <= |s| && DemandSum(inst, s[..k]) == MinPrefix(inst, s)
  {
    if s == [] {
      assert s[..0] == s;
    } else {
      var t := s[..|s| - 1];
      PrefixBounds(inst, t);
      assert forall k :: 0 <= k <= |t| ==> s[..k] == t[..k];
      assert s[..|s|] == s;
      var kx :| 0 <= kx <= |t| && DemandSum(inst, t[..kx]) == MaxPrefix(inst, t);
      var kn :| 0 <= kn <= |t| && DemandSum(inst, t[..kn]) == MinPrefix(inst, t);
      if MaxPrefix(inst, s) == MaxPrefix(inst, t) {
        assert DemandSum(inst, s[..kx]) == MaxPrefix(inst, s);
      } else {
        assert DemandSum(inst, s[..|s|]) == MaxPrefix(inst, s);
      }
      if MinPrefix(inst, s) == MinPrefix(inst, t) {
        assert DemandSum(inst, s[..kn]) == MinPrefix(inst, s);
      } else {
        assert DemandSum(inst, s[..|s|]) == MinPrefix(inst, s);
      }
    }
  }

  datatype RouteFeasInfo = RouteFeasInfo(
    ok: bool,
    capViolation: int,
    maxPrefix: int,
    minPrefix: int,
    L0Min: int,
    L0Max: int,
    suggestedL0: int)

  /** The record returned for a malformed route: not ok, every field 0. */
  const NoInfo := RouteFeasInfo(false, 0, 0, 0, 0, 0, 0)

  /** Non-empty, from depot to depot, every node an id in 0..n. */
  predicate WellFormed(inst: Instance, r: Route) {
    |r| > 0 && r[0] == 0 && r[|r| - 1] == 0 && InRange(inst, r)
  }

  /** Starting with load L0 at the depot keeps every running load of s in [0, Q]. */
  predicate LoadsWithin(inst: Instance, s: seq<int>, L0: int) {
    forall k :: 0 <= k <= |s| ==> 0 <= L0 + DemandSum(inst, s[..k]) <= inst.Q
  }

  /** What CheckRouteFeasible computes for a route. */
  function RouteFeasibility(inst: Instance, r: Route): (info: RouteFeasInfo)
    ensures info.ok == Feasible(inst, r)
  {
    if !WellFormed(inst, r) then NoInfo
    else
      var s := Interior(r);
      var maxPrefix := MaxPrefix(inst, s);
      var minPrefix := MinPrefix(inst, s);
      var l0Min := Max(0, -minPrefix);
      var l0Max := inst.Q - maxPrefix;
      var feasible := l0Min <= l0Max;
      RouteFeasInfo(feasible, if feasible then 0 else l0Min - l0Max, maxPrefix, minPrefix,
                    l0Min, l0Max, Clamp(l0Min, 0, inst.Q))
  }

  /** The fields of the record: a malformed route gives the all-zero record;
      otherwise the prefix extremes of the interior, ok exactly when they span
      at most Q, and the start-load window or the amount of the violation. */
  lemma RouteFeasibilityRecord(inst: Instance, r: Route)
    ensures !WellFormed(inst, r) ==> RouteFeasibility(inst, r) == NoInfo
    ensures RouteFeasibility(inst, r).maxPrefix >= 0 >= RouteFeasibility(inst, r).minPrefix
    ensures WellFormed(inst, r) ==>
      RouteFeasibility(inst, r).maxPrefix == MaxPrefix(inst, Interior(r)) &&
      RouteFeasibility(inst, r).minPrefix == MinPrefix(inst, Interior(r))
    ensures WellFormed(inst, r) ==>
      (RouteFeasibility(inst, r).ok <==>
       RouteFeasibility(inst, r).maxPrefix - RouteFeasibility(inst, r).minPrefix <= inst.Q)
    ensures var info := RouteFeasibility(inst, r);
      info.ok ==> info.capViolation == 0 && 0 <= info.suggestedL0 == info.L0Min <= info.L0Max <= inst.Q
    ensures var info := RouteFeasibility(inst, r);
      WellFormed(inst, r) && !info.ok ==> info.capViolation == info.maxPrefix - info.minPrefix - inst.Q > 0
  {
  }

  /** What CheckRouteFeasible(r).ok decides: a well-formed route whose interior
      prefix sums span at most Q. */
  predicate Feasible(inst: Instance, r: Route) {
    WellFormed(inst, r) && MaxPrefix(inst, Interior(r)) - MinPrefix(inst, Interior(r)) <= inst.Q
  }

  /** Feasibility needs a route that is well formed. */
  lemma FeasibleIsWellFormed(inst: Instance, r: Route)
    requires Feasible(inst, r)
    ensures WellFormed(inst, r)
  {
  }

  /** The derivation behind the test: starting at suggested_L0 the vehicle's load
      never leaves [0, Q] along a feasible route. */
  lemma SuggestedLoadKeepsCapacity(inst: Instance, r: Route)
    requires Feasible(inst, r)
    ensures LoadsWithin(inst, Interior(r), RouteFeasibility(inst, r).suggestedL0)
  {
    PrefixBounds(inst, Interior(r));
  }

  /** ... and the test is exact: a route is feasible if and only if some initial
      load keeps every running load within [0, Q]. */
  lemma FeasibleIffSomeStartLoad(inst: Instance, r: Route)
    requires WellFormed(inst, r)
    ensures Feasible(inst, r) <==> exists L0 :: LoadsWithin(inst, Interior(r), L0)
  {
    var s := Interior(r);
    if Feasible(inst, r) {
      SuggestedLoadKeepsCapacity(inst, r);
    }
    if L0 :| LoadsWithin(inst, s, L0) {
      PrefixBounds(inst, s);
      var kMax :| 0 <= kMax <= |s| && DemandSum(inst, s[..kMax]) == MaxPrefix(inst, s);
      var kMin :| 0 <= kMin <= |s| && DemandSum(inst, s[..kMin]) == MinPrefix(inst, s);
      assert L0 + MaxPrefix(inst, s) <= inst.Q;
      assert 0 <= L0 + MinPrefix(inst, s);
    }
  }

  /** The empty route [0, 0]: all prefix fields 0, feasible exactly when Q >= 0,
      and then the whole range [0, Q] is open for the initial load. */
  lemma EmptyRouteInfo(inst: Instance)
    requires inst.Valid()
    ensures RouteFeasibility(inst, [0, 0]).maxPrefix == 0 == RouteFeasibility(inst, [0, 0]).minPrefix
    ensures Feasible(inst, [0, 0]) <==> inst.Q >= 0
    ensures inst.Q >= 0 ==> RouteFeasibility(inst, [0, 0]).L0Max == inst.Q
  {
    assert Interior([0, 0]) == [];
  }

  /** CheckRouteFeasible: shape checks, then one scan of the interior prefix sums. */
  method CheckRouteFeasible(inst: Instance, route: Route) returns (info: RouteFeasInfo)
    ensures info == RouteFeasibility(inst, route)
    ensures info.ok == Feasible(inst, route)
  {
    info := NoInfo;
    if |route| == 0 || route[0] != 0 || route[|route| - 1] != 0 {
      return;
    }
    var n := inst.n;
    var k := 0;
    while k < |route|
      invariant 0 <= k <= |route|
      invariant forall j :: 0 <= j < k ==> inst.IsNode(route[j])
    {
      if route[k] < 0 || route[k] > n {
        return;
      }
      k := k + 1;
    }
    var prefix, maxPrefix, minPrefix := 0, 0, 0;
    var i := 1;
    while i < |route| - 1
      invariant 1 <= i <= |route|
      invariant |route| >= 2 ==> i <= |route| - 1
      invariant prefix == DemandSum(inst, route[1..i])
      invariant maxPrefix == MaxPrefix(inst, route[1..i])
      invariant minPrefix == MinPrefix(inst, route[1..i])
    {
      assert route[1..i + 1][..i - 1] == route[1..i];
      prefix := prefix + NodeDemand(inst, route[i]);
      maxPrefix := Max(maxPrefix, prefix);
      minPrefix := Min(minPrefix, prefix);
      i := i + 1;
    }
    assert route[1..i] == Interior(route);
    var Q := inst.Q;
    var l0Min := Max(0, -minPrefix);
    var l0Max := Q - maxPrefix;
    var feasible := l0Min <= l0Max;
    info := RouteFeasInfo(feasible, if feasible then 0 else l0Min - l0Max, maxPrefix, minPrefix,
                          l0Min, l0Max, Clamp(l0Min, 0, Q));
  }

  /** Vehicle budget respected, every route feasible, every station 1..n visited
      exactly once. */
  predicate SolutionFeasible(inst: Instance, routes: seq<Route>) {
    && |routes| <= inst.m
    && (forall k :: 0 <= k < |routes| ==> Feasible(inst, routes[k]))
    && (forall v :: 1 <= v <= inst.n ==> Nodes(routes)[v] == 1)
  }

  /** The inner loop of CheckSolutionFeasible: count the non-depot nodes of one
      route, failing on a node outside 1..n or on a second visit. */
  method CountVisits(count: array<int>, route: Route, ghost before: multiset<int>) returns (ok: bool)
    requires count.Length >= 1
    requires forall v :: 1 <= v < count.Length ==> count[v] == before[v] <= 1
    modifies count
    ensures ok ==> forall v :: 1 <= v < count.Length ==> count[v] == (before + multiset(route))[v] <= 1
    ensures ok ==> forall j :: 0 <= j < |route| ==> 0 <= route[j] < count.Length
    ensures !ok ==>
      (exists j :: 0 <= j < |route| && (route[j] < 0 || route[j] >= count.Length)) ||
      (exists v :: 1 <= v < count.Length && (before + multiset(route))[v] > 1)
  {
    var j := 0;
    while j < |route|
      invariant 0 <= j <= |route|
      invariant forall v :: 1 <= v < count.Length ==> count[v] == (before + multiset(route[..j]))[v] <= 1
      invariant forall k :: 0 <= k < j ==> 0 <= route[k] < count.Length
    {
      var node := route[j];
      assert route[..j + 1] == route[..j] + [node];
      ghost var seen := before + multiset(route[..j]);
      assert before + multiset(route[..j + 1]) == seen + multiset{node};
      if node != 0 {
        if node < 1 || node >= count.Length {
          return false;
        }
        count[node] := count[node] + 1;
        if count[node] > 1 {
          assert route == route[..j + 1] + route[j + 1..];
          assert multiset(route[..j + 1]) <= multiset(route);
          assert (before + multiset(route))[node] > 1;
          return false;
        }
      }
      forall v | 1 <= v < count.Length ensures count[v] == (seen + multiset{node})[v] <= 1 {
        if v != node {
          assert (seen + multiset{node})[v] == seen[v];
        }
      }
      j := j + 1;
    }
    assert route[..j] == route;
    return true;
  }

  /** One round of the outer loop of CheckSolutionFeasible: check route r, then
      count its nodes. */
  method CheckNextRoute(inst: Instance, count: array<int>, routes: seq<Route>, r: nat) returns (ok: bool)
    requires r < |routes| && count.Length == inst.n + 1
    requires forall v :: 1 <= v <= inst.n ==> count[v] == Nodes(routes[..r])[v] <= 1
    modifies count
    ensures ok ==> Feasible(inst, routes[r])
    ensures ok ==> forall v :: 1 <= v <= inst.n ==> count[v] == Nodes(routes[..r + 1])[v] <= 1
    ensures !ok ==> !SolutionFeasible(inst, routes)
  {
    var info := CheckRouteFeasible(inst, routes[r]);
    if !info.ok {
      return false;
    }
    FeasibleIsWellFormed(inst, routes[r]);
    ghost var seen := Nodes(routes[..r]);
    NodesPrefix(routes, r);
    ok := CountVisits(count, routes[r], seen);
    if !ok {
      ghost var v :| 1 <= v <= inst.n && (seen + multiset(routes[r]))[v] > 1;
      NodesPrefixIncluded(routes, r + 1);
      assert Nodes(routes)[v] > 1;
    }
  }

  /** CheckSolutionFeasible: the count vector is filled route by route. */
  method CheckSolutionFeasible(inst: Instance, routes: seq<Route>) returns (ok: bool)
    requires inst.n >= 0
    ensures ok == SolutionFeasible(inst, routes)
  {
    var n := inst.n;
    if |routes| > inst.m {
      return false;
    }
    var count := new int[n + 1](_ => 0);
    var r := 0;
    while r < |routes|
      invariant 0 <= r <= |routes|
      invariant forall k :: 0 <= k < r ==> Feasible(inst, routes[k])
      invariant forall v :: 1 <= v <= n ==> count[v] == Nodes(routes[..r])[v] <= 1
    {
      var step := CheckNextRoute(inst, count, routes, r);
      if !step {
        return false;
      }
      assert forall v :: 1 <= v <= inst.n ==> count[v] == Nodes(routes[..r + 1])[v];
      r := r + 1;
    }
    assert routes[..r] == routes;
    var i := 1;
    while i <= n
      invariant 1 <= i <= n + 1
      invariant forall v :: 1 <= v < i ==> count[v] == 1
    {
      if count[i] != 1 {
        return false;
      }
      i := i + 1;
    }
    return true;
  }
}
