/**
 The grid scenario of the older A* test: a 45 × 45 grid of cells with a
 T-shaped obstacle, where a node steps to any of its eight neighbours that is
 on the grid and off the obstacle.
 */
module Grids {
  import opened Board

  const GridWidth: int := 45
  const GridHeight: int := 45

  /** `node`: a cell and its index. Equality compares the cell, order the index. */
  datatype GridNode = GridNode(x: int, y: int, index: int)

  /** `node::operator==`. */
  predicate SameCell(a: GridNode, b: GridNode) {
    a.x == b.x && a.y == b.y
  }

  /** `node::operator<`. */
  predicate Before(a: GridNode, b: GridNode) {
    a.index < b.index
  }

  /** `grid_index`: column plus row times the grid's height. */
  function GridIndex(x: int, y: int): int {
    x + y * GridHeight
  }

  predicate OnGrid(x: int, y: int) {
    0 <= x < GridWidth && 0 <= y < GridHeight
  }

  /** The upright of the T. */
  predicate InVerticalBar(x: int, y: int) {
    15 <= x <= 27 && y <= 35
  }

  /** The crossbar of the T. */
  predicate InHorizontalBar(x: int, y: int) {
    7 <= x <= 38 && 28 <= y <= 35
  }

  /** `expansion_ok`: the four tests in order, the first that fails deciding. */
  function ExpansionOk(n: GridNode): bool {
    if n.x < 0 || n.x >= GridWidth then false
    else if n.y < 0 || n.y >= GridHeight then false
    else if n.x >= 15 && n.x <= 27 && n.y <= 35 then false
    else if n.x >= 7 && n.x <= 38 && n.y >= 28 && n.y <= 35 then false
    else true
  }

  /** A node may be expanded to exactly when its cell is on the grid and off both bars. */
  lemma ExpansionOkMeans(n: GridNode)
    ensures ExpansionOk(n) <==> OnGrid(n.x, n.y) && !InVerticalBar(n.x, n.y) && !InHorizontalBar(n.x, n.y)
  {
  }

  /**
   The nine passes of the double loop over the steps -1, 0, 1: dx in the outer
   loop, dy in the inner one.
   */
  const Offsets: seq<(int, int)> := [(-1, -1), (-1, 0), (-1, 1), (0, -1), (0, 0), (0, 1), (1, -1), (1, 0), (1, 1)]

  /** The node at (x, y), indexed as the test indexes it. */
  function NodeAt(x: int, y: int): GridNode {
    GridNode(x, y, GridIndex(x, y))
  }

  /**
   The double loop of `expand` from its k-th pass on: the pass with both steps 0
   is skipped, and a neighbour is kept when `expansion_ok` allows it.
   */
  function Around(n: GridNode, k: nat): (r: seq<GridNode>)
    requires k <= 9
    ensures |r| <= 9 - k
    decreases 9 - k
  {
    if k == 9 then []
    else
      var (dx, dy) := Offsets[k];
      var m := NodeAt(n.x + dx, n.y + dy);
      (if (dx == 0 && dy == 0) || !ExpansionOk(m) then [] else [m]) + Around(n, k + 1)
  }

  /** `expand`. */
  function Expand(n: GridNode): seq<GridNode> {
    Around(n, 0)
  }

  /** One of the eight neighbours of (x, y). */
  predicate Adjacent(x: int, y: int, m: GridNode) {
    Dist(m.x, x) <= 1 && Dist(m.y, y) <= 1 && !(m.x == x && m.y == y)
  }

  /** Pass j of the loop, not the skipped one, reaches m from n. */
  predicate AtPass(n: GridNode, j: nat, m: GridNode)
    requires j < 9
  {
    Offsets[j] != (0, 0) && m == NodeAt(n.x + Offsets[j].0, n.y + Offsets[j].1)
  }

  lemma {:induction false} AroundMembers(n: GridNode, k: nat, m: GridNode)
    requires k <= 9
    ensures m in Around(n, k) <==> ExpansionOk(m) && exists j :: k <= j < 9 && AtPass(n, j, m)
    decreases 9 - k
  {
    if k < 9 {
      AroundMembers(n, k + 1, m);
      if ExpansionOk(m) && AtPass(n, k, m) {
        assert m in Around(n, k);
      }
      if m in Around(n, k) && m !in Around(n, k + 1) {
        assert AtPass(n, k, m);
      }
      if exists j :: k <= j < 9 && AtPass(n, j, m) {
        var j :| k <= j < 9 && AtPass(n, j, m);
        if j > k {
          assert exists i :: k + 1 <= i < 9 && AtPass(n, i, m);
        }
      }
    }
  }

  /** The passes of the loop cover the nine offsets, one each. */
  lemma OffsetPass(dx: int, dy: int)
    requires -1 <= dx <= 1 && -1 <= dy <= 1
    ensures Offsets[3 * (dx + 1) + dy + 1] == (dx, dy)
  {
  }

  /** Each pass reaches a neighbour, indexed as the test indexes it. */
  lemma PassIsAdjacent(n: GridNode, j: nat, m: GridNode)
    requires j < 9 && AtPass(n, j, m)
    ensures Adjacent(n.x, n.y, m) && m.index == GridIndex(m.x, m.y)
  {
    var (dx, dy) := Offsets[j];
    assert -1 <= dx <= 1 && -1 <= dy <= 1 && (dx, dy) != (0, 0);
  }

  /** Each neighbour is reached by one of the passes. */
  lemma AdjacentIsPass(n: GridNode, m: GridNode)
    requires Adjacent(n.x, n.y, m) && m.index == GridIndex(m.x, m.y)
    ensures exists j :: 0 <= j < 9 && AtPass(n, j, m)
  {
    var dx, dy := m.x - n.x, m.y - n.y;
    var j := 3 * (dx + 1) + dy + 1;
    OffsetPass(dx, dy);
    assert AtPass(n, j, m);
  }

  /**
   `expand` returns exactly the neighbours of the node's cell in all eight
   directions that `expansion_ok` allows, each with its grid index.
   */
  lemma ExpandMembers(n: GridNode, m: GridNode)
    ensures m in Expand(n) <==> Adjacent(n.x, n.y, m) && m.index == GridIndex(m.x, m.y) && ExpansionOk(m)
  {
    AroundMembers(n, 0, m);
    if m in Expand(n) {
      var j :| 0 <= j < 9 && AtPass(n, j, m);
      PassIsAdjacent(n, j, m);
    }
    if Adjacent(n.x, n.y, m) && m.index == GridIndex(m.x, m.y) {
      AdjacentIsPass(n, m);
    }
  }

  /** `expand` never returns the node's own cell and returns at most eight nodes. */
  lemma ExpandBounds(n: GridNode)
    ensures |Expand(n)| <= 8
    ensures forall m :: m in Expand(n) ==> !SameCell(m, n) && ExpansionOk(m)
  {
    forall m | m in Expand(n)
      ensures !SameCell(m, n) && ExpansionOk(m)
    {
      ExpandMembers(n, m);
    }
    assert Offsets[4] == (0, 0);
    assert |Around(n, 5)| <= 4;
  }

  /** Steps are undone: the node stepped from is a neighbour of the node stepped to. */
  lemma ExpandSymmetric(n: GridNode, m: GridNode)
    requires ExpansionOk(n) && m in Expand(n)
    ensures NodeAt(n.x, n.y) in Expand(m)
  {
    ExpandMembers(n, m);
    ExpandMembers(m, NodeAt(n.x, n.y));
  }

  /**
   The upright walls off the left of the grid from the right below the
   crossbar: a step from a row below 35 stays on its side of column 15.
   */
  lemma UprightSeparates(n: GridNode, m: GridNode)
    requires ExpansionOk(n) && n.y < 35 && m in Expand(n)
    ensures n.x < 15 <==> m.x < 15
  {
    ExpandMembers(n, m);
  }

  /** On the grid, the index numbers the cells one to one. */
  lemma GridIndexOneToOne(x1: int, y1: int, x2: int, y2: int)
    requires OnGrid(x1, y1) && OnGrid(x2, y2)
    ensures GridIndex(x1, y1) == GridIndex(x2, y2) <==> x1 == x2 && y1 == y2
  {
  }

  /**
   For nodes on the grid carrying their own index, equality and order agree:
   two nodes are equal exactly when neither comes before the other.
   */
  lemma OrderMatchesEquality(a: GridNode, b: GridNode)
    requires OnGrid(a.x, a.y) && OnGrid(b.x, b.y)
    requires a.index == GridIndex(a.x, a.y) && b.index == GridIndex(b.x, b.y)
    ensures SameCell(a, b) <==> !Before(a, b) && !Before(b, a)
  {
    GridIndexOneToOne(a.x, a.y, b.x, b.y);
  }

  /** The test's default start (10, 0) and goal (32, 12) are free cells. */
  lemma DefaultEnds()
    ensures ExpansionOk(NodeAt(10, 0)) && ExpansionOk(NodeAt(32, 12))
  {
  }
}
