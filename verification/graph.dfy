/**
 The adjacency-list graph the search tests run on: each node maps to its
 neighbours and the weight of the edge to each. A node is a `char`.
 */
module AdjListGraphs {
  import opened Wrappers
  import opened Paths

  /** `adj_list_graph_t`: for each node, its neighbours and edge weights. */
  type Graph = map<char, map<char, nat>>

  /** The least of a non-empty set of nodes. */
  predicate IsLeast(keys: set<char>, k: char) {
    k in keys && forall j :: j in keys ==> k <= j
  }

  lemma {:induction false} LeastExists(keys: set<char>)
    requires keys != {}
    ensures exists k :: IsLeast(keys, k)
    decreases |keys|
  {
    var x :| x in keys;
    var rest := keys - {x};
    if rest == {} {
      assert keys == {x};
      assert IsLeast(keys, x);
    } else {
      LeastExists(rest);
      var y :| IsLeast(rest, y);
      var k := if x < y then x else y;
      forall j | j in keys
        ensures k <= j
      {
        if j != x {
          assert j in rest;
        }
      }
      assert IsLeast(keys, k);
    }
  }

  predicate StrictlyAscending(s: seq<char>) {
    forall i, j :: 0 <= i < j < |s| ==> s[i] < s[j]
  }

  /** The least of a non-empty set of nodes. */
  function Least(keys: set<char>): (k: char)
    requires keys != {}
    ensures IsLeast(keys, k)
  {
    LeastExists(keys);
    var k :| IsLeast(keys, k);
    k
  }

  /** The keys of a `std::map`, in the ascending order its iteration visits them. */
  function SortedKeys(keys: set<char>): (r: seq<char>)
    ensures |r| == |keys|
    ensures forall c :: c in r <==> c in keys
    decreases |keys|
  {
    if keys == {} then []
    else
      var k := Least(keys);
      [k] + SortedKeys(keys - {k})
  }

  /** The keys come out in strictly ascending order, as a `std::map` iterates them. */
  lemma {:induction false} SortedKeysAscending(keys: set<char>)
    ensures StrictlyAscending(SortedKeys(keys))
    decreases |keys|
  {
    if keys != {} {
      var k := Least(keys);
      var rest := SortedKeys(keys - {k});
      SortedKeysAscending(keys - {k});
      assert forall c :: c in rest ==> k < c;
      assert SortedKeys(keys) == [k] + rest;
    }
  }

  /**
   `expand_adj_list_graph`: the neighbours of `node` in ascending order, and
   nothing for a node the graph does not hold or one without neighbours.
   */
  function Expand(g: Graph, node: char): (r: seq<char>)
    ensures node !in g ==> r == []
    ensures StrictlyAscending(r)
  {
    if node !in g then []
    else if |g[node]| == 0 then []
    else SortedKeysAscending(g[node].Keys); SortedKeys(g[node].Keys)
  }

  /** A node's expansion lists exactly the neighbours the graph records for it. */
  lemma ExpandIsNeighbours(g: Graph, n: char, m: char)
    ensures m in Expand(g, n) <==> n in g && m in g[n]
  {
  }

  /**
   `neighbor_weight`: the stored weight of the edge from n to m. `at` throws
   when either lookup misses, here None.
   */
  function NeighborWeight(g: Graph, n: char, m: char): (r: Option<nat>)
    ensures r.Some? <==> n in g && m in g[n]
    ensures r.Some? ==> r.value == g[n][m]
  {
    if n !in g then None
    else if m !in g[n] then None
    else Some(g[n][m])
  }

  /** The expansion handed to the searches. */
  function Expander(g: Graph): (e: char -> seq<char>)
    ensures forall x :: e(x) == Expand(g, x)
  {
    x => Expand(g, x)
  }

  /** Every edge the expansion offers has a weight. */
  lemma ExpandedHaveWeights(g: Graph, n: char, m: char)
    requires m in Expand(g, n)
    ensures NeighborWeight(g, n, m).Some?
  {
    ExpandIsNeighbours(g, n, m);
  }

  /**
   The weight the searches are handed: `neighbor_weight` on a listed edge. The
   searches only weigh edges the expansion offered (ExpandedHaveWeights), so the
   0 for a missing edge, where the source throws, is never used.
   */
  function Weight(g: Graph): (w: (char, char) -> nat)
    ensures forall n, m :: NeighborWeight(g, n, m).Some? ==> w(n, m) == NeighborWeight(g, n, m).value
  {
    (n, m) => if n in g && m in g[n] then g[n][m] else 0
  }

  // ---------------------------------------------------------------------------
  // The seven-node test graph
  // ---------------------------------------------------------------------------

  /** `theGraph`: a, b, c, d, e, f and z with undirected weighted edges. */
  const TheGraph: Graph := map[
    'a' := map['b' := 4, 'c' := 3],
    'b' := map['a' := 4, 'e' := 12, 'f' := 5],
    'c' := map['a' := 3, 'd' := 7, 'e' := 10],
    'd' := map['c' := 7, 'e' := 2],
    'e' := map['c' := 10, 'd' := 2, 'b' := 12, 'z' := 5],
    'f' := map['b' := 5, 'z' := 16],
    'z' := map['f' := 16, 'e' := 5]
  ]

  /** How far each node lies from `a`, as a search settles it. */
  function FromA(x: char): nat {
    match x
    case 'a' => 0
    case 'b' => 4
    case 'c' => 3
    case 'd' => 10
    case 'e' => 12
    case 'f' => 9
    case 'z' => 17
    case _ => 0
  }

  lemma FromAEnds()
    ensures FromA('a') == 0 && FromA('z') == 17
  {
  }

  /** No edge of the test graph shortens the distances FromA lists. */
  lemma EdgesRespectFromA(x: char, y: char)
    requires x in TheGraph && y in TheGraph[x]
    ensures FromA(y) <= FromA(x) + TheGraph[x][y]
  {
  }

  /**
   A bound d on the distance between nodes that no edge undercuts bounds every
   path: from its first node to its last it costs at least the difference of d.
   */
  lemma {:induction false} PathsRespectBound(g: Graph, d: char -> nat, path: seq<char>)
    requires |path| > 0
    requires Contiguous(Expander(g), path)
    requires forall x, y :: x in g && y in g[x] ==> d(y) <= d(x) + g[x][y]
    ensures PathCost(Weight(g), path) + d(path[0]) >= d(path[|path| - 1])
    decreases |path|
  {
    if |path| > 1 {
      var front := path[..|path| - 1];
      var x, y := path[|path| - 2], path[|path| - 1];
      assert Contiguous(Expander(g), front);
      PathsRespectBound(g, d, front);
      assert y in Expander(g)(x);
      ExpandIsNeighbours(g, x, y);
      assert NeighborWeight(g, x, y).Some?;
    }
  }

  /** The path the test expects. */
  function Answer(): seq<char> {
    ['a', 'c', 'd', 'e', 'z']
  }

  /** The test's answer, a, c, d, e, z, follows edges of the graph. */
  lemma AnswerIsPath()
    ensures Contiguous(Expander(TheGraph), ['a', 'c', 'd', 'e', 'z'])
  {
    var best := ['a', 'c', 'd', 'e', 'z'];
    AnswerEdges();
    forall i | 0 <= i < |best| - 1
      ensures best[i + 1] in Expander(TheGraph)(best[i])
    {
      ExpandIsNeighbours(TheGraph, best[i], best[i + 1]);
    }
  }

  lemma AnswerEdges()
    ensures 'a' in TheGraph && 'c' in TheGraph['a'] && 'c' in TheGraph && 'd' in TheGraph['c']
    ensures 'd' in TheGraph && 'e' in TheGraph['d'] && 'e' in TheGraph && 'z' in TheGraph['e']
  {
  }

  /** The weights of the answer's edges. */
  lemma AnswerWeights()
    ensures Weight(TheGraph)('a', 'c') == 3 && Weight(TheGraph)('c', 'd') == 7
    ensures Weight(TheGraph)('d', 'e') == 2 && Weight(TheGraph)('e', 'z') == 5
  {
    assert NeighborWeight(TheGraph, 'e', 'z') == Some(5);
    assert NeighborWeight(TheGraph, 'd', 'e') == Some(2);
    assert NeighborWeight(TheGraph, 'c', 'd') == Some(7);
    assert NeighborWeight(TheGraph, 'a', 'c') == Some(3);
  }

  /** The test's answer: a, c, d, e, z is a path of the graph and costs 17 by `get_path_cost`. */
  lemma AnswerCosts17()
    ensures Contiguous(Expander(TheGraph), ['a', 'c', 'd', 'e', 'z'])
    ensures GetPathCost(Weight(TheGraph), ['a', 'c', 'd', 'e', 'z']) == 17
  {
    AnswerIsPath();
    AnswerWeights();
    var w := Weight(TheGraph);
    assert GetPathCost(w, ['e', 'z']) == 5 by {
      assert ['e', 'z'][1..] == ['z'];
    }
    assert GetPathCost(w, ['d', 'e', 'z']) == 7 by {
      assert ['d', 'e', 'z'][1..] == ['e', 'z'];
    }
    assert GetPathCost(w, ['c', 'd', 'e', 'z']) == 14 by {
      assert ['c', 'd', 'e', 'z'][1..] == ['d', 'e', 'z'];
    }
    assert ['a', 'c', 'd', 'e', 'z'][1..] == ['c', 'd', 'e', 'z'];
  }

  /** No path of the test graph from a to z costs less than the test's answer, 17. */
  lemma NoCheaperAToZ(path: seq<char>)
    requires |path| > 0 && path[0] == 'a' && path[|path| - 1] == 'z'
    requires Contiguous(Expander(TheGraph), path)
    ensures GetPathCost(Weight(TheGraph), path) >= 17
  {
    forall x, y | x in TheGraph && y in TheGraph[x]
      ensures FromA(y) <= FromA(x) + TheGraph[x][y]
    {
      EdgesRespectFromA(x, y);
    }
    PathsRespectBound(TheGraph, FromA, path);
    GetPathCostIsPathCost(Weight(TheGraph), path);
    FromAEnds();
  }
}

/**
 The graph search tests: A* and IDA* from `a` to `z` on the seven-node graph,
 with the null heuristic and `neighbor_weight` as the edge weight.
 */
module GraphSearchTests {
  import opened Paths
  import opened AdjListGraphs
  import Problems
  import AStarSteps
  import AStar
  import IdaStar

  /** `null_heuristic`. */
  function NullHeuristic(n: char): nat {
    0
  }

  /** `is_goal`. */
  function IsGoal(n: char): bool {
    n == 'z'
  }

  /** The search both tests run, under the default ceiling. */
  function TestProblem(): (p: Problems.Problem<char>)
    ensures p.start == 'a' && p.expand == Expander(TheGraph) && p.w == Weight(TheGraph)
    ensures forall n :: p.h(n) == 0 && (p.isGoal(n) <==> n == 'z')
  {
    Problems.Problem('a', Expander(TheGraph), NullHeuristic, Weight(TheGraph), IsGoal, Problems.CostLimit)
  }

  /**
   The A* half of the Dijkstra test: a path found runs from a to z along the
   graph's edges, the reported cost is `get_path_cost` of it, and it is at least
   the 17 of the expected answer. `stop` is how the search ended: since a path
   from a to z exists, the frontier never runs dry.
   */
  method AStarTest(fuel: nat) returns (found: bool, path: seq<char>, pathCost: nat, stop: AStarSteps.Stop)
    ensures found <==> path != []
    ensures found <==> stop == AStarSteps.GoalReached
    ensures found ==>
              && path[0] == 'a' && path[|path| - 1] == 'z'
              && Contiguous(Expander(TheGraph), path)
              && pathCost == GetPathCost(Weight(TheGraph), path)
              && pathCost >= 17
    ensures stop != AStarSteps.FrontierExhausted
  {
    var out, cost;
    stop, out, cost := AStar.Search(TestProblem(), fuel);
    found := stop == AStarSteps.GoalReached;
    path := out;
    pathCost := 0;
    if found {
      pathCost := cost.value;
      GetPathCostIsPathCost(Weight(TheGraph), path);
      NoCheaperAToZ(path);
    }
    NeverExhausted(TestProblem(), stop);
  }

  /** A search on the test graph whose frontier ran dry would contradict the path a, c, d, e, z. */
  lemma NeverExhausted(p: Problems.Problem<char>, stop: AStarSteps.Stop)
    requires p == TestProblem()
    requires stop == AStarSteps.FrontierExhausted ==>
               forall q :: |q| > 0 && q[0] == p.start && Contiguous(p.expand, q) ==> !p.isGoal(q[|q| - 1])
    ensures stop != AStarSteps.FrontierExhausted
  {
    AnswerReachesGoal(p);
  }

  /** The test's answer is a path from the test's start to its goal. */
  lemma AnswerReachesGoal(p: Problems.Problem<char>)
    requires p == TestProblem()
    ensures |Answer()| > 0 && Answer()[0] == p.start && Contiguous(p.expand, Answer()) && p.isGoal(Answer()[|Answer()| - 1])
  {
    AnswerIsPath();
  }

  /**
   The IDA* half: a path found runs from a to z along the graph's edges without
   visiting a node twice, costs at least 17 and at most the final bound.
   */
  method IdaStarTest(depth: nat) returns (path: seq<char>, bound: nat)
    ensures path != [] ==>
              && path[0] == 'a' && path[|path| - 1] == 'z'
              && Contiguous(Expander(TheGraph), path)
              && (forall i, j :: 0 <= i < j < |path| ==> path[i] != path[j])
              && 17 <= GetPathCost(Weight(TheGraph), path) <= bound
  {
    path, bound := IdaStar.Search(TestProblem(), depth);
    if path != [] {
      GetPathCostIsPathCost(Weight(TheGraph), path);
      NoCheaperAToZ(path);
    }
  }
}
