/** Routes as sequences of node ids, and the edits that the builders, the
    neighbourhood operators and the perturbations make to them. */
module Routes {
  import opened Instance

  type Route = seq<int>

  /** The nodes strictly between the first and the last one. */
  function Interior(r: Route): Route {
    if |r| < 2 then [] else r[1..|r| - 1]
  }

  predicate InRange(inst: Instance, r: Route) {
    forall k :: 0 <= k < |r| ==> inst.IsNode(r[k])
  }

  predicate AllInRange(inst: Instance, routes: seq<Route>) {
    forall k :: 0 <= k < |routes| ==> InRange(inst, routes[k])
  }

  /** Every route is non-empty and holds only node ids 0..n: what the operators
      need before they index a route or look up a travel cost. */
  predicate Shaped(inst: Instance, routes: seq<Route>) {
    AllInRange(inst, routes) && forall k :: 0 <= k < |routes| ==> |routes[k]| >= 1
  }

  /** Route k of b starts and ends with the same nodes as route k of a. */
  predicate SameEnds(a: seq<Route>, b: seq<Route>) {
    |a| == |b| &&
    forall k :: 0 <= k < |a| ==> |a[k]| >= 1 && |b[k]| >= 1 && b[k][0] == a[k][0] && b[k][|b[k]| - 1] == a[k][|a[k]| - 1]
  }

  /** vector::insert of one node before position i. */
  function InsertAt(s: Route, i: int, x: int): (r: Route)
    requires 0 <= i <= |s|
    ensures |r| == |s| + 1 && r[i] == x
    ensures forall k {:trigger r[k]} :: 0 <= k < i ==> r[k] == s[k]
    ensures forall k {:trigger r[k]} :: i < k < |r| ==> r[k] == s[k - 1]
  {
    s[..i] + [x] + s[i..]
  }

  /** vector::erase of the node at position i. */
  function RemoveAt(s: Route, i: int): (r: Route)
    requires 0 <= i < |s|
    ensures |r| == |s| - 1
    ensures forall k {:trigger r[k]} :: 0 <= k < i ==> r[k] == s[k]
    ensures forall k {:trigger r[k]} :: i <= k < |r| ==> r[k] == s[k + 1]
  {
    s[..i] + s[i + 1..]
  }

  /** vector::insert of a whole block before position i. */
  function InsertSeqAt(s: Route, i: int, b: Route): (r: Route)
    requires 0 <= i <= |s|
    ensures |r| == |s| + |b|
    ensures forall k {:trigger r[k]} :: 0 <= k < i ==> r[k] == s[k]
    ensures forall k {:trigger b[k]} :: 0 <= k < |b| ==> r[i + k] == b[k]
    ensures forall k {:trigger r[k]} :: i + |b| <= k < |r| ==> r[k] == s[k - |b|]
  {
    s[..i] + b + s[i..]
  }

  /** vector::erase of the len nodes starting at position i. */
  function RemoveRange(s: Route, i: int, len: int): (r: Route)
    requires 0 <= i && 0 <= len && i + len <= |s|
    ensures |r| == |s| - len
    ensures forall k {:trigger r[k]} :: 0 <= k < i ==> r[k] == s[k]
    ensures forall k {:trigger r[k]} :: i <= k < |r| ==> r[k] == s[k + len]
  {
    s[..i] + s[i + len..]
  }

  function Reverse(s: Route): (r: Route)
    ensures |r| == |s|
    ensures forall k {:trigger r[k]} :: 0 <= k < |s| ==> r[k] == s[|s| - 1 - k]
    ensures multiset(r) == multiset(s)
  {
    if s == [] then []
    else
      assert s == [s[0]] + s[1..];
      Reverse(s[1..]) + [s[0]]
  }

  /** std::reverse applied to positions i..j inclusive. */
  function ReverseSegment(s: Route, i: int, j: int): (r: Route)
    requires 0 <= i <= j < |s|
    ensures |r| == |s|
    ensures forall k {:trigger r[k]} :: 0 <= k < |s| && (k < i || j < k) ==> r[k] == s[k]
    ensures forall k {:trigger r[k]} :: i <= k <= j ==> r[k] == s[i + j - k]
  {
    s[..i] + Reverse(s[i..j + 1]) + s[j + 1..]
  }

  /** The two nodes at positions p and q, in two different routes, change places. */
  function SwapNodes(routes: seq<Route>, r1: int, p1: int, r2: int, p2: int): (rs: seq<Route>)
    requires 0 <= r1 < |routes| && 0 <= r2 < |routes| && r1 != r2
    requires 0 <= p1 < |routes[r1]| && 0 <= p2 < |routes[r2]|
    ensures |rs| == |routes|
  {
    routes[r1 := routes[r1][p1 := routes[r2][p2]]][r2 := routes[r2][p2 := routes[r1][p1]]]
  }

  // The edits only move nodes around: the multiset of a route's nodes changes by
  // exactly the nodes inserted or removed.

  lemma InsertAtNodes(s: Route, i: int, x: int)
    requires 0 <= i <= |s|
    ensures multiset(InsertAt(s, i, x)) == multiset(s) + multiset{x}
  {
    assert s == s[..i] + s[i..];
  }

  lemma RemoveAtNodes(s: Route, i: int)
    requires 0 <= i < |s|
    ensures multiset(RemoveAt(s, i)) + multiset{s[i]} == multiset(s)
  {
    assert s == s[..i] + [s[i]] + s[i + 1..];
  }

  lemma InsertSeqAtNodes(s: Route, i: int, b: Route)
    requires 0 <= i <= |s|
    ensures multiset(InsertSeqAt(s, i, b)) == multiset(s) + multiset(b)
  {
    assert s == s[..i] + s[i..];
  }

  lemma RemoveRangeNodes(s: Route, i: int, len: int)
    requires 0 <= i && 0 <= len && i + len <= |s|
    ensures multiset(RemoveRange(s, i, len)) + multiset(s[i..i + len]) == multiset(s)
  {
    assert s == s[..i] + s[i..i + len] + s[i + len..];
  }

  lemma ReverseSegmentNodes(s: Route, i: int, j: int)
    requires 0 <= i <= j < |s|
    ensures multiset(ReverseSegment(s, i, j)) == multiset(s)
  {
    assert s == s[..i] + s[i..j + 1] + s[j + 1..];
  }

  // Undoing an edit restores the route exactly: the revert steps of the operators.

  lemma RemoveInsert(s: Route, i: int, x: int)
    requires 0 <= i <= |s|
    ensures RemoveAt(InsertAt(s, i, x), i) == s
  {
  }

  lemma InsertRemove(s: Route, i: int)
    requires 0 <= i < |s|
    ensures InsertAt(RemoveAt(s, i), i, s[i]) == s
  {
  }

  lemma RemoveInsertSeq(s: Route, i: int, b: Route)
    requires 0 <= i <= |s|
    ensures RemoveRange(InsertSeqAt(s, i, b), i, |b|) == s
  {
  }

  lemma InsertSeqRemove(s: Route, i: int, len: int)
    requires 0 <= i && 0 <= len && i + len <= |s|
    ensures InsertSeqAt(RemoveRange(s, i, len), i, s[i..i + len]) == s
  {
  }

  lemma ReverseSegmentTwice(s: Route, i: int, j: int)
    requires 0 <= i <= j < |s|
    ensures ReverseSegment(ReverseSegment(s, i, j), i, j) == s
  {
  }

  /** The multiset of all nodes of all routes, depot visits included. */
  function Nodes(routes: seq<Route>): multiset<int> {
    if routes == [] then multiset{} else Nodes(routes[..|routes| - 1]) + multiset(routes[|routes| - 1])
  }

  /** Replacing one route changes the node multiset by exactly that route's nodes. */
  lemma {:induction false} NodesUpdate(routes: seq<Route>, k: int, r: Route)
    requires 0 <= k < |routes|
    ensures Nodes(routes[k := r]) + multiset(routes[k]) == Nodes(routes) + multiset(r)
  {
    var last := |routes| - 1;
    if k == last {
      assert routes[k := r][..last] == routes[..last];
    } else {
      assert routes[k := r][..last] == routes[..last][k := r];
      assert routes[k := r][last] == routes[last];
      NodesUpdate(routes[..last], k, r);
      calc {
        Nodes(routes[k := r]) + multiset(routes[k]);
        Nodes(routes[..last][k := r]) + multiset(routes[last]) + multiset(routes[k]);
        Nodes(routes[..last]) + multiset(r) + multiset(routes[last]);
        Nodes(routes) + multiset(r);
      }
    }
  }

  /** Appending a route adds exactly its nodes. */
  lemma NodesAppend(routes: seq<Route>, r: Route)
    ensures Nodes(routes + [r]) == Nodes(routes) + multiset(r)
  {
    assert (routes + [r])[..|routes|] == routes;
  }

  lemma NodesPrefix(routes: seq<Route>, i: int)
    requires 0 <= i < |routes|
    ensures Nodes(routes[..i + 1]) == Nodes(routes[..i]) + multiset(routes[i])
  {
    assert routes[..i + 1][..i] == routes[..i];
  }

  lemma {:induction false} NodesPrefixIncluded(routes: seq<Route>, i: int)
    requires 0 <= i <= |routes|
    ensures Nodes(routes[..i]) <= Nodes(routes)
  {
    if i < |routes| {
      NodesPrefixIncluded(routes[..|routes| - 1], i);
      assert routes[..|routes| - 1][..i] == routes[..i];
    } else {
      assert routes[..i] == routes;
    }
  }

  /** Two routes replaced at once keep the node multiset when their nodes are
      only redistributed between them. */
  lemma NodesUpdate2(routes: seq<Route>, a: int, ra: Route, b: int, rb: Route)
    requires 0 <= a < |routes| && 0 <= b < |routes| && a != b
    requires multiset(ra) + multiset(rb) == multiset(routes[a]) + multiset(routes[b])
    ensures Nodes(routes[a := ra][b := rb]) == Nodes(routes)
  {
    var mid := routes[a := ra];
    NodesUpdate(routes, a, ra);
    NodesUpdate(mid, b, rb);
    assert mid[b] == routes[b];
    var n2 := Nodes(mid[b := rb]);
    var moved := multiset(routes[a]) + multiset(routes[b]);
    calc {
      n2 + moved;
      (n2 + multiset(mid[b])) + multiset(routes[a]);
      (Nodes(mid) + multiset(rb)) + multiset(routes[a]);
      (Nodes(mid) + multiset(routes[a])) + multiset(rb);
      (Nodes(routes) + multiset(ra)) + multiset(rb);
      Nodes(routes) + moved;
    }
    forall x ensures n2[x] == Nodes(routes)[x] {
      assert (n2 + moved)[x] == (Nodes(routes) + moved)[x];
    }
  }

  /** Swapping one route for a rearrangement of it keeps the node multiset. */
  lemma NodesReplaceSame(routes: seq<Route>, k: int, r: Route)
    requires 0 <= k < |routes| && multiset(r) == multiset(routes[k])
    ensures Nodes(routes[k := r]) == Nodes(routes)
  {
    NodesUpdate(routes, k, r);
    forall x ensures Nodes(routes[k := r])[x] == Nodes(routes)[x] {
      assert (Nodes(routes[k := r]) + multiset(routes[k]))[x] == (Nodes(routes) + multiset(r))[x];
    }
  }
}
