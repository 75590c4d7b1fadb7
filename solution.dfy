/** A solution: the route set and its recorded total cost. The operators update
    both in place. */
module Solutions {
  import opened Routes

  class Solution {
    var routes: seq<Route>
    var totalCost: int

    constructor (routes: seq<Route>, totalCost: int)
      ensures this.routes == routes && this.totalCost == totalCost
    {
      this.routes := routes;
      this.totalCost := totalCost;
    }
  }
}
