/** The read-only problem instance that every component of the engine shares.
    Node 0 is the depot, nodes 1..n are the stations. */
module Instance {

  datatype Instance = Instance(
    n: int,               // number of stations
    m: int,               // number of vehicles
    Q: int,               // vehicle capacity
    demand: seq<int>,     // demand[i] is the demand of station i + 1
    cost: seq<seq<int>>)  // cost[u][v] is the travel cost from node u to node v
  {
    /** What the instance reader guarantees: a non-negative station count and a
        square (n + 1) x (n + 1) travel-cost table. */
    predicate Valid() {
      n >= 0 && |cost| == n + 1 && forall u :: 0 <= u < |cost| ==> |cost[u]| == n + 1
    }

    /** Travel costs are distances: none is negative. */
    predicate NonNegativeCosts() {
      forall u, v :: 0 <= u < |cost| && 0 <= v < |cost[u]| ==> cost[u][v] >= 0
    }

    predicate IsNode(v: int) {
      0 <= v <= n
    }

    predicate IsStation(v: int) {
      1 <= v <= n
    }

    /** Demand of the station stored at index i of the demand vector; an index
        outside the vector reads as 0. */
    function StationDemand(i: int): int {
      if 0 <= i < |demand| then demand[i] else 0
    }

    function Travel(u: int, v: int): int
      requires Valid() && IsNode(u) && IsNode(v)
    {
      cost[u][v]
    }
  }
}
