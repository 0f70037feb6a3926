/**
 Depth-first search with a cost bound (`cds::astar::detail_::ida_search`) and the
 iterative-deepening driver (`cds::astar::ida_star_search`).

 The node set holds exactly the nodes of the current path, each CLOSED with its
 cost from the start; a neighbour already in the set is skipped, so a path never
 revisits a node. On a failed descent the pushed node is popped and erased again,
 so a search that finds nothing hands back the path and node set it was given.
 */
module IdaSearch {
  import opened Problems
  import opened NodeRecords
  import opened Paths

  type NodeSet<T> = map<T, NodeInfo<T>>

  /**
   What one depth-first search returns: the found flag, the value (f of the goal,
   or the least f that exceeded the bound), and the path stack and node set as
   the search leaves them. `cut` has no counterpart in the source: it records that
   the depth fuel ran out somewhere below.
   */
  datatype Outcome<T> = Outcome(found: bool, value: nat, path: seq<T>, nodes: NodeSet<T>, cut: bool)

  /**
   Position `k` of `path'` was pushed while expanding position k - 1: it is one of
   that node's neighbours, and it was registered CLOSED with the predecessor's cost
   plus the edge weight.
   */
  ghost predicate Pushed<T>(p: Problem<T>, path': seq<T>, nodes': NodeSet<T>, k: int)
    requires 0 < k < |path'|
  {
    && path'[k] in p.expand(path'[k - 1])
    && path'[k - 1] in nodes' && path'[k] in nodes'
    && nodes'[path'[k]] == NewNodeInfo(Closed, nodes'[path'[k - 1]].costToNode + p.w(path'[k - 1], path'[k]))
  }

  /**
   `path'` continues the non-empty `path` by pairwise distinct nodes that were not
   in `nodes`, each pushed from its predecessor; the node set grew by exactly those
   nodes and kept every record it had.
   */
  ghost predicate Extends<T>(p: Problem<T>, path: seq<T>, nodes: NodeSet<T>, path': seq<T>, nodes': NodeSet<T>) {
    && 0 < |path| <= |path'| && path'[..|path|] == path
    && (forall x :: x in nodes ==> x in nodes' && nodes'[x] == nodes[x])
    && (forall x :: x in nodes' ==> x in nodes || x in path'[|path|..])
    && (forall k :: |path| <= k < |path'| ==> path'[k] !in nodes && Pushed(p, path', nodes', k))
    && (forall i, j :: |path| <= i < j < |path'| ==> path'[i] != path'[j])
  }

  /** The registry one push produces: `adj` CLOSED with the top's cost plus the edge weight. */
  function Push<T>(p: Problem<T>, path: seq<T>, nodes: NodeSet<T>, adj: T): NodeSet<T>
    requires |path| > 0 && path[|path| - 1] in nodes
  {
    nodes[adj := NewNodeInfo(Closed, nodes[path[|path| - 1]].costToNode + p.w(path[|path| - 1], adj))]
  }

  lemma ExtendsStepPrefix<T>(path: seq<T>, adj: T, path': seq<T>)
    requires |path| + 1 <= |path'| && path'[..|path| + 1] == path + [adj]
    ensures |path| < |path'| && path'[..|path|] == path && path'[|path|] == adj
    ensures path'[|path|..] == [adj] + path'[|path| + 1..]
  {
    assert path'[..|path| + 1] == path + [adj];
    assert path'[..|path|] == (path'[..|path| + 1])[..|path|];
  }

  lemma ExtendsStepKeys<T>(p: Problem<T>, path: seq<T>, nodes: NodeSet<T>, adj: T, path': seq<T>, nodes': NodeSet<T>)
    requires |path| > 0 && path[|path| - 1] in nodes && adj !in nodes
    requires Extends(p, path + [adj], Push(p, path, nodes, adj), path', nodes')
    ensures forall x :: x in nodes ==> x in nodes' && nodes'[x] == nodes[x]
    ensures forall x :: x in nodes' ==> x in nodes || x in path'[|path|..]
  {
    ExtendsStepPrefix(path, adj, path');
    var nodes1 := Push(p, path, nodes, adj);
    forall x | x in nodes ensures x in nodes' && nodes'[x] == nodes[x] {
      assert x in nodes1 && nodes1[x] == nodes[x];
    }
    forall x | x in nodes' ensures x in nodes || x in path'[|path|..] {
      if x !in nodes1 {
        assert x in path'[|path| + 1..];
      }
    }
  }

  lemma ExtendsStepPushed<T>(p: Problem<T>, path: seq<T>, nodes: NodeSet<T>, adj: T, path': seq<T>, nodes': NodeSet<T>)
    requires |path| > 0 && path[|path| - 1] in nodes && adj !in nodes
    requires adj in p.expand(path[|path| - 1])
    requires Extends(p, path + [adj], Push(p, path, nodes, adj), path', nodes')
    ensures forall k :: |path| <= k < |path'| ==> path'[k] !in nodes && Pushed(p, path', nodes', k)
  {
    ExtendsStepPrefix(path, adj, path');
    var n := path[|path| - 1];
    var nodes1 := Push(p, path, nodes, adj);
    forall k | |path| <= k < |path'| ensures path'[k] !in nodes && Pushed(p, path', nodes', k) {
      if k == |path| {
        assert path'[k - 1] == n;
        assert nodes1[n] == nodes[n];
      } else {
        assert path'[k] !in nodes1;
      }
    }
  }

  lemma ExtendsStepDistinct<T>(p: Problem<T>, path: seq<T>, nodes: NodeSet<T>, adj: T, path': seq<T>, nodes': NodeSet<T>)
    requires |path| > 0 && path[|path| - 1] in nodes
    requires Extends(p, path + [adj], Push(p, path, nodes, adj), path', nodes')
    ensures forall i, j :: |path| <= i < j < |path'| ==> path'[i] != path'[j]
  {
    ExtendsStepPrefix(path, adj, path');
    forall i, j | |path| <= i < j < |path'| ensures path'[i] != path'[j] {
      if i == |path| {
        assert path'[j] !in Push(p, path, nodes, adj);
      }
    }
  }

  /** Pushing one fresh neighbour and then extending from there extends the original path. */
  lemma ExtendsStep<T>(p: Problem<T>, path: seq<T>, nodes: NodeSet<T>, adj: T, path': seq<T>, nodes': NodeSet<T>)
    requires |path| > 0 && path[|path| - 1] in nodes && adj !in nodes
    requires adj in p.expand(path[|path| - 1])
    requires Extends(p, path + [adj], Push(p, path, nodes, adj), path', nodes')
    ensures Extends(p, path, nodes, path', nodes')
  {
    ExtendsStepPrefix(path, adj, path');
    ExtendsStepKeys(p, path, nodes, adj, path', nodes');
    ExtendsStepPushed(p, path, nodes, adj, path', nodes');
    ExtendsStepDistinct(p, path, nodes, adj, path', nodes');
  }

  /** A value handed back by a failed search: over the bound, over the ceiling, or the "none" sentinel. */
  predicate Overshoot<T>(p: Problem<T>, bound: nat, v: nat) {
    v > bound || v > p.maxCost || v == CostLimit
  }

  /**
   `ida_search` on the stack `path` (top at the end) and node set `nodes`. The
   depth fuel bounds how many expansions may be nested; a search out of fuel
   gives up like one without children and sets `cut`.
   */
  function Search<T(==)>(p: Problem<T>, path: seq<T>, nodes: NodeSet<T>, bound: nat, fuel: nat): (r: Outcome<T>)
    requires |path| > 0 && path[|path| - 1] in nodes
    ensures !r.found ==> r.path == path && r.nodes == nodes
    decreases fuel, 0, 0
  {
    var n := path[|path| - 1];
    var g := nodes[n].costToNode;
    var f := g + p.h(n);
    if f > bound then Outcome(false, f, path, nodes, false)
    else if f > p.maxCost then Outcome(false, f, path, nodes, false)
    else if p.isGoal(n) then Outcome(true, f, path, nodes, false)
    else if fuel == 0 then Outcome(false, CostLimit, path, nodes, true)
    else Children(p, n, g, path, nodes, bound, fuel - 1, p.expand(n), CostLimit, false)
  }

  /**
   The loop over the neighbours `kids` of the top node `n` (cost `g`), in the order
   `expand` lists them. A neighbour already in the node set (on the path) is
   skipped; otherwise it is registered and pushed, searched, and on failure popped
   and erased. `least` is the running minimum of the failed descents' values.
   */
  function Children<T(==)>(p: Problem<T>, n: T, g: nat, path: seq<T>, nodes: NodeSet<T>, bound: nat, fuel: nat,
                           kids: seq<T>, least: nat, cut: bool): (r: Outcome<T>)
    requires |path| > 0 && path[|path| - 1] == n && n in nodes && nodes[n].costToNode == g
    requires forall x :: x in kids ==> x in p.expand(n)
    ensures !r.found ==> r.path == path && r.nodes == nodes
    decreases fuel, 1, |kids|
  {
    if kids == [] then Outcome(false, least, path, nodes, cut)
    else
      var adj := kids[0];
      if adj in nodes then Children(p, n, g, path, nodes, bound, fuel, kids[1..], least, cut)
      else
        var nodes1 := Push(p, path, nodes, adj);
        var t := Search(p, path + [adj], nodes1, bound, fuel);
        if t.found then t
        else
          var least' := if t.value < least then t.value else least;
          assert t.path[..|t.path| - 1] == path;
          assert t.nodes - {adj} == nodes;
          Children(p, n, g, t.path[..|t.path| - 1], t.nodes - {adj}, bound, fuel, kids[1..], least', cut || t.cut)
  }

  /** A successful search: the path was extended to a goal whose f is within the bound and the ceiling. */
  ghost predicate FoundOk<T>(p: Problem<T>, bound: nat, path: seq<T>, nodes: NodeSet<T>, r: Outcome<T>) {
    && Extends(p, path, nodes, r.path, r.nodes)
    && r.path[|r.path| - 1] in r.nodes && p.isGoal(r.path[|r.path| - 1])
    && r.value == r.nodes[r.path[|r.path| - 1]].costToNode + p.h(r.path[|r.path| - 1])
    && r.value <= bound && r.value <= p.maxCost
  }

  /**
   What `ida_search` returns: either a goal reached by extending the path, with
   its f within the bound and the ceiling, or a value that overshoots the bound or
   the ceiling or is the "none" sentinel.
   */
  lemma {:induction false} SearchSound<T>(p: Problem<T>, path: seq<T>, nodes: NodeSet<T>, bound: nat, fuel: nat)
    requires |path| > 0 && path[|path| - 1] in nodes
    ensures !Search(p, path, nodes, bound, fuel).found ==> Overshoot(p, bound, Search(p, path, nodes, bound, fuel).value)
    ensures Search(p, path, nodes, bound, fuel).found ==> FoundOk(p, bound, path, nodes, Search(p, path, nodes, bound, fuel))
    decreases fuel, 0, 0
  {
    var n := path[|path| - 1];
    var g := nodes[n].costToNode;
    if g + p.h(n) > bound || g + p.h(n) > p.maxCost {
    } else if p.isGoal(n) {
      assert path[..|path|] == path;
    } else if fuel > 0 {
      ChildrenSound(p, n, g, path, nodes, bound, fuel - 1, p.expand(n), CostLimit, false);
    }
  }

  /** The neighbour loop hands back the least failed value, or a goal found below one of the neighbours. */
  lemma {:induction false} ChildrenSound<T>(p: Problem<T>, n: T, g: nat, path: seq<T>, nodes: NodeSet<T>, bound: nat, fuel: nat,
                                            kids: seq<T>, least: nat, cut: bool)
    requires |path| > 0 && path[|path| - 1] == n && n in nodes && nodes[n].costToNode == g
    requires forall x :: x in kids ==> x in p.expand(n)
    ensures var r := Children(p, n, g, path, nodes, bound, fuel, kids, least, cut);
      !r.found ==> r.value <= least && (r.value == least || Overshoot(p, bound, r.value))
    ensures var r := Children(p, n, g, path, nodes, bound, fuel, kids, least, cut);
      r.found ==> FoundOk(p, bound, path, nodes, r)
    decreases fuel, 1, |kids|
  {
    if kids != [] {
      var adj := kids[0];
      if adj in nodes {
        ChildrenSound(p, n, g, path, nodes, bound, fuel, kids[1..], least, cut);
      } else {
        var nodes1 := Push(p, path, nodes, adj);
        SearchSound(p, path + [adj], nodes1, bound, fuel);
        var t := Search(p, path + [adj], nodes1, bound, fuel);
        if t.found {
          ExtendsStep(p, path, nodes, adj, t.path, t.nodes);
        } else {
          var least' := if t.value < least then t.value else least;
          assert t.path[..|t.path| - 1] == path;
          assert t.nodes - {adj} == nodes;
          ChildrenSound(p, n, g, path, nodes, bound, fuel, kids[1..], least', cut || t.cut);
        }
      }
    }
  }

  /** The depth-first search below the neighbour `adj` of the top of `path`, once `adj` is registered and pushed. */
  function Descent<T(==)>(p: Problem<T>, path: seq<T>, nodes: NodeSet<T>, bound: nat, fuel: nat, adj: T): Outcome<T>
    requires |path| > 0 && path[|path| - 1] in nodes
  {
    Search(p, path + [adj], Push(p, path, nodes, adj), bound, fuel)
  }

  /**
   The neighbour loop takes the minimum over its descents: it finds nothing
   exactly when no descent below an unvisited neighbour finds anything, and then
   its value is at most `least` and at most every descent's value, and is either
   `least` or one of those values.
   */
  lemma {:induction false} ChildrenLeast<T>(p: Problem<T>, n: T, g: nat, path: seq<T>, nodes: NodeSet<T>, bound: nat, fuel: nat,
                                            kids: seq<T>, least: nat, cut: bool)
    requires |path| > 0 && path[|path| - 1] == n && n in nodes && nodes[n].costToNode == g
    requires forall x :: x in kids ==> x in p.expand(n)
    ensures LeastOver(p, path, nodes, bound, fuel, kids, least, Children(p, n, g, path, nodes, bound, fuel, kids, least, cut))
    decreases |kids|
  {
    if kids != [] {
      var adj := kids[0];
      var rest := kids[1..];
      var r := Children(p, n, g, path, nodes, bound, fuel, kids, least, cut);
      if adj in nodes {
        ChildrenLeast(p, n, g, path, nodes, bound, fuel, rest, least, cut);
        assert r == Children(p, n, g, path, nodes, bound, fuel, rest, least, cut);
        LeastSkip(p, path, nodes, bound, fuel, kids, least, r);
      } else {
        var t := Descent(p, path, nodes, bound, fuel, adj);
        if t.found {
          assert r == t;
          assert kids[0] !in nodes && Descent(p, path, nodes, bound, fuel, kids[0]).found;
        } else {
          var least' := if t.value < least then t.value else least;
          assert t.path[..|t.path| - 1] == path;
          assert t.nodes - {adj} == nodes;
          assert r == Children(p, n, g, path, nodes, bound, fuel, rest, least', cut || t.cut);
          ChildrenLeast(p, n, g, path, nodes, bound, fuel, rest, least', cut || t.cut);
          LeastStep(p, path, nodes, bound, fuel, kids, least, r);
        }
      }
    }
  }

  /** The three facts of ChildrenLeast about an outcome `r` of the loop over `kids`. */
  ghost predicate LeastOver<T>(p: Problem<T>, path: seq<T>, nodes: NodeSet<T>, bound: nat, fuel: nat,
                                   kids: seq<T>, least: nat, r: Outcome<T>)
    requires |path| > 0 && path[|path| - 1] in nodes
  {
    && (!r.found <==> forall i :: 0 <= i < |kids| && kids[i] !in nodes ==> !Descent(p, path, nodes, bound, fuel, kids[i]).found)
    && (!r.found ==>
          && r.value <= least
          && forall i :: 0 <= i < |kids| && kids[i] !in nodes ==> r.value <= Descent(p, path, nodes, bound, fuel, kids[i]).value)
    && (!r.found ==>
          || r.value == least
          || exists i :: 0 <= i < |kids| && kids[i] !in nodes && r.value == Descent(p, path, nodes, bound, fuel, kids[i]).value)
  }

  /** A neighbour on the path adds nothing to the minimum. */
  lemma LeastSkip<T>(p: Problem<T>, path: seq<T>, nodes: NodeSet<T>, bound: nat, fuel: nat,
                         kids: seq<T>, least: nat, r: Outcome<T>)
    requires |path| > 0 && path[|path| - 1] in nodes
    requires |kids| > 0 && kids[0] in nodes && LeastOver(p, path, nodes, bound, fuel, kids[1..], least, r)
    ensures LeastOver(p, path, nodes, bound, fuel, kids, least, r)
  {
    var rest := kids[1..];
    assert forall i :: 1 <= i < |kids| ==> kids[i] == rest[i - 1];
    if !r.found && r.value != least {
      var i :| 0 <= i < |rest| && rest[i] !in nodes && r.value == Descent(p, path, nodes, bound, fuel, rest[i]).value;
      assert kids[i + 1] == rest[i];
    }
    if !r.found {
      forall i | 0 <= i < |kids| && kids[i] !in nodes
        ensures !Descent(p, path, nodes, bound, fuel, kids[i]).found
        ensures r.value <= Descent(p, path, nodes, bound, fuel, kids[i]).value
      {
        assert i > 0;
        assert kids[i] == rest[i - 1];
      }
    } else {
      var j :| 0 <= j < |rest| && rest[j] !in nodes && Descent(p, path, nodes, bound, fuel, rest[j]).found;
      assert kids[j + 1] == rest[j];
    }
  }

  /** A failed descent folds its value into the running minimum before the rest of the loop. */
  lemma LeastStep<T>(p: Problem<T>, path: seq<T>, nodes: NodeSet<T>, bound: nat, fuel: nat,
                         kids: seq<T>, least: nat, r: Outcome<T>)
    requires |path| > 0 && path[|path| - 1] in nodes
    requires |kids| > 0 && kids[0] !in nodes && !Descent(p, path, nodes, bound, fuel, kids[0]).found
    requires var v := Descent(p, path, nodes, bound, fuel, kids[0]).value;
             LeastOver(p, path, nodes, bound, fuel, kids[1..], if v < least then v else least, r)
    ensures LeastOver(p, path, nodes, bound, fuel, kids, least, r)
  {
    var rest := kids[1..];
    var t := Descent(p, path, nodes, bound, fuel, kids[0]);
    var least' := if t.value < least then t.value else least;
    assert forall i :: 1 <= i < |kids| ==> kids[i] == rest[i - 1];
    if !r.found {
      forall i | 0 <= i < |kids| && kids[i] !in nodes
        ensures !Descent(p, path, nodes, bound, fuel, kids[i]).found
        ensures r.value <= Descent(p, path, nodes, bound, fuel, kids[i]).value
      {
        if i > 0 {
          assert kids[i] == rest[i - 1];
        }
      }
      if r.value != least {
        if r.value == least' {
          assert r.value == Descent(p, path, nodes, bound, fuel, kids[0]).value;
        } else {
          var i :| 0 <= i < |rest| && rest[i] !in nodes && r.value == Descent(p, path, nodes, bound, fuel, rest[i]).value;
          assert kids[i + 1] == rest[i];
        }
      }
    } else {
      var j :| 0 <= j < |rest| && rest[j] !in nodes && Descent(p, path, nodes, bound, fuel, rest[j]).found;
      assert kids[j + 1] == rest[j];
    }
  }

  /** The root of every round: the start node, CLOSED with cost 0, alone on the path. */
  function Root<T>(p: Problem<T>): NodeSet<T> {
    map[p.start := NewNodeInfo(Closed, 0)]
  }

  /** One round of the driver: `ida_search` from the root with the given bound. */
  function Round<T(==)>(p: Problem<T>, bound: nat, depth: nat): Outcome<T> {
    Search(p, [p.start], Root(p), bound, depth)
  }

  /**
   A path grown from the root: it starts at the start node, recorded with cost
   0, and every later node was pushed from the one before it.
   */
  ghost predicate Chained<T>(p: Problem<T>, path: seq<T>, nodes: NodeSet<T>) {
    && 0 < |path| && path[0] == p.start
    && p.start in nodes && nodes[p.start].costToNode == 0
    && forall k :: 0 < k < |path| ==> Pushed(p, path, nodes, k)
  }

  lemma ExtendsChained<T>(p: Problem<T>, path: seq<T>, nodes: NodeSet<T>)
    requires Extends(p, [p.start], Root(p), path, nodes)
    ensures Chained(p, path, nodes)
  {
    assert path[0] == path[..1][0];
    assert p.start in Root(p);
  }

  /** The record of every node on a path grown from the root carries the cost of the path up to it. */
  lemma {:induction false} ChainCost<T>(p: Problem<T>, path: seq<T>, nodes: NodeSet<T>, k: nat)
    requires Chained(p, path, nodes) && k < |path|
    ensures path[k] in nodes && nodes[path[k]].costToNode == PathCost(p.w, path[..k + 1])
  {
    if k == 0 {
      assert path[..1] == [p.start];
    } else {
      ChainCost(p, path, nodes, k - 1);
      assert Pushed(p, path, nodes, k);
      assert path[..k + 1][..k] == path[..k];
      assert path[..k + 1][k - 1] == path[k - 1];
    }
  }

  /** A path found from the root starts at the start node, follows edges, never repeats a node, and costs its goal's record. */
  lemma FoundPathFromRoot<T>(p: Problem<T>, path: seq<T>, nodes: NodeSet<T>)
    requires Extends(p, [p.start], Root(p), path, nodes)
    ensures path[0] == p.start && Contiguous(p.expand, path)
    ensures forall i, j :: 0 <= i < j < |path| ==> path[i] != path[j]
    ensures path[|path| - 1] in nodes && nodes[path[|path| - 1]].costToNode == PathCost(p.w, path)
  {
    assert path[0] == path[..1][0];
    forall i | 0 <= i < |path| - 1 ensures path[i + 1] in p.expand(path[i]) {
      assert Pushed(p, path, nodes, i + 1);
    }
    forall i, j | 0 <= i < j < |path| ensures path[i] != path[j] {
      if i == 0 {
        assert path[j] !in Root(p);
      }
    }
    ExtendsChained(p, path, nodes);
    ChainCost(p, path, nodes, |path| - 1);
    assert path[..|path|] == path;
  }
}

/** The iterative-deepening driver `cds::astar::ida_star_search`. */
module IdaStar {
  import opened Problems
  import opened NodeRecords
  import opened Paths
  import opened IdaSearch

  /**
   Reading the path out of the stack: pop the top and put it at the front of the
   list until the stack is empty. The list lists the stack bottom first.
   */
  method DrainStack<T>(stack: seq<T>) returns (list: seq<T>)
    ensures |list| == |stack|
    ensures forall i :: 0 <= i < |stack| ==> list[i] == stack[i]
  {
    var rest := stack;
    list := [];
    while |rest| > 0
      invariant rest + list == stack
      decreases |rest|
    {
      list := [rest[|rest| - 1]] + list;
      rest := rest[..|rest| - 1];
    }
  }

  /**
   IDA*: rounds of depth-first search from the start, with the bound starting at
   h(start) and raised each round to the least f that overshot it. Returns the path
   and the bound of the round that found it, or an empty path when a round reports
   no overshoot at all or the bound passes the ceiling. `depth` is the depth fuel
   of each round.
   */
  method Search<T(==)>(p: Problem<T>, depth: nat) returns (path: seq<T>, bound: nat)
    ensures bound >= p.h(p.start)
    ensures path != [] ==>
              && Round(p, bound, depth).found && path == Round(p, bound, depth).path
              && path[0] == p.start && p.isGoal(path[|path| - 1])
              && Contiguous(p.expand, path)
              && (forall i, j :: 0 <= i < j < |path| ==> path[i] != path[j])
              && PathCost(p.w, path) + p.h(path[|path| - 1]) <= bound
              && PathCost(p.w, path) + p.h(path[|path| - 1]) <= p.maxCost
    ensures path == [] ==> bound > p.maxCost || (!Round(p, bound, depth).found && Round(p, bound, depth).value == CostLimit)
  {
    bound := p.h(p.start);
    while true
      invariant bound >= p.h(p.start)
      decreases if bound <= p.maxCost then p.maxCost - bound + 1 else 0
    {
      var r := Round(p, bound, depth);
      SearchSound(p, [p.start], Root(p), bound, depth);
      if r.found {
        FoundPathFromRoot(p, r.path, r.nodes);
        path := DrainStack(r.path);
        return;
      }
      if r.value == CostLimit {
        break;
      }
      bound := r.value;
      if bound > p.maxCost {
        break;
      }
    }
    path := [];
  }
}
