/**
 Paths through an implicit graph: the cost fold of `get_path_cost` and the
 "one expand step per edge" contiguity that every search result satisfies.
 */
module Paths {

  /** Every consecutive pair of `path` is an edge produced by `expand`. */
  ghost predicate Contiguous<T>(expand: T -> seq<T>, path: seq<T>) {
    forall i :: 0 <= i < |path| - 1 ==> path[i + 1] in expand(path[i])
  }

  /**
   The sum of `w` over consecutive elements, accumulated from the back as the
   searches record it: the cost to the last node's predecessor plus the last
   edge. The path must not be empty.
   */
  function PathCost<T>(w: (T, T) -> nat, path: seq<T>): nat
    requires |path| > 0
    decreases |path|
  {
    if |path| == 1 then 0
    else PathCost(w, path[..|path| - 1]) + w(path[|path| - 2], path[|path| - 1])
  }

  /** A one-node path costs nothing. */
  lemma SingleNodeCost<T>(w: (T, T) -> nat, n: T)
    ensures PathCost(w, [n]) == 0
  {
  }

  /** The fold read from the back equals the fold read from the front. */
  lemma {:induction false} CostFromFront<T>(w: (T, T) -> nat, path: seq<T>)
    requires |path| >= 2
    ensures PathCost(w, path) == w(path[0], path[1]) + PathCost(w, path[1..])
    decreases |path|
  {
    if |path| > 2 {
      var front := path[..|path| - 1];
      CostFromFront(w, front);
      assert front[1..] == path[1..][..|path[1..]| - 1];
    } else {
      assert path[1..] == [path[1]];
    }
  }

  /**
   `get_path_cost`: `std::inner_product` of the weights of neighbouring nodes,
   added from the front. A one-node path costs 0; an empty one is not allowed
   (`std::prev(end)`).
   */
  function GetPathCost<T>(w: (T, T) -> nat, path: seq<T>): nat
    requires |path| > 0
    decreases |path|
  {
    if |path| == 1 then 0 else w(path[0], path[1]) + GetPathCost(w, path[1..])
  }

  /** The fold from the front is the cost the searches add up from the back. */
  lemma {:induction false} GetPathCostIsPathCost<T>(w: (T, T) -> nat, path: seq<T>)
    requires |path| > 0
    ensures GetPathCost(w, path) == PathCost(w, path)
    decreases |path|
  {
    if |path| >= 2 {
      GetPathCostIsPathCost(w, path[1..]);
      CostFromFront(w, path);
    }
  }

  /** Joining two paths at a shared node adds their costs. */
  lemma {:induction false} CostOfJoin<T>(w: (T, T) -> nat, a: seq<T>, b: seq<T>)
    requires |a| > 0 && |b| > 0 && a[|a| - 1] == b[0]
    ensures PathCost(w, a + b[1..]) == PathCost(w, a) + PathCost(w, b)
    decreases |b|
  {
    if |b| == 1 {
      assert a + b[1..] == a;
    } else {
      var b' := b[..|b| - 1];
      CostOfJoin(w, a, b');
      assert (a + b[1..])[..|a + b[1..]| - 1] == a + b'[1..];
    }
  }

  /** With unit weights a path costs its number of edges. */
  lemma {:induction false} UnitCostCountsEdges<T>(w: (T, T) -> nat, path: seq<T>)
    requires |path| > 0
    requires forall x, y :: w(x, y) == 1
    ensures PathCost(w, path) == |path| - 1
    decreases |path|
  {
    if |path| > 1 {
      UnitCostCountsEdges(w, path[..|path| - 1]);
    }
  }
}
