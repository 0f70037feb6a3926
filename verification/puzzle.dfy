/**
 The N×N sliding puzzle (`n_sq_puzzle<N>`). The board is a row-major array of
 N² tiles in which 0 is the empty space; `space` caches the index of that 0.
 A move names the direction the empty space travels. The legacy header has the
 same constructor, `can_move`, `move`, cell addressing, `==` and `is_solved`.
 */
module Puzzles {
  import opened Wrappers
  import opened Cycles
  import opened Board

  datatype Move = Up | Down | Left | Right

  /** The dimension N, the tiles `m_state` and `m_space_index`. */
  datatype Puzzle = Puzzle(n: nat, state: seq<int>, space: nat)

  /** The result of `move`: whether it moved, and the puzzle afterwards. */
  datatype MoveResult = MoveResult(ok: bool, puzzle: Puzzle)

  /** A board of N² cells, N > 1, whose cached space index holds the 0. */
  predicate Valid(p: Puzzle) {
    p.n > 1 && |p.state| == Area(p.n) && p.space < |p.state| && p.state[p.space] == 0
  }

  // ---------------------------------------------------------------------------
  // Cell addressing
  // ---------------------------------------------------------------------------

  /** `operator()(i, j)`: the tile at row i, column j. */
  function Cell(p: Puzzle, i: nat, j: nat): (t: int)
    requires Valid(p) && i < p.n && j < p.n
    ensures RowCol(p.n, p.n * i + j) == (i, j)
  {
    RowColOf(p.n, i, j);
    p.state[p.n * i + j]
  }

  // ---------------------------------------------------------------------------
  // Construction and comparison
  // ---------------------------------------------------------------------------

  /** The array `{0, 1, …, m-1}` of `create_index_array`. */
  function Indices(m: nat): (r: seq<int>)
    ensures |r| == m && forall k :: 0 <= k < m ==> r[k] == k
  {
    seq(m, k => k)
  }

  /** `std::rotate(begin, begin + 1, end)`: the first element moves to the back. */
  function RotateLeft(s: seq<int>): (r: seq<int>)
    requires |s| > 0
    ensures |r| == |s| && r[|s| - 1] == s[0]
    ensures forall k :: 0 <= k < |s| - 1 ==> r[k] == s[k + 1]
  {
    s[1..] + [s[0]]
  }

  /**
   The default constructor: the solved board 1, 2, …, N²-1 followed by the
   empty space in the lower right corner.
   */
  function Solved(n: nat): (r: Puzzle)
    requires n > 1
    ensures Valid(r) && r.n == n && r.space == Area(n) - 1
    ensures forall k :: 0 <= k < Area(n) - 1 ==> r.state[k] == k + 1
    ensures RowCol(n, r.space) == (n - 1, n - 1)
  {
    LastCell(n);
    Puzzle(n, RotateLeft(Indices(Area(n))), Area(n) - 1)
  }

  /** `operator==`: the boards hold the same tiles; the cached index is not compared. */
  predicate Same(p: Puzzle, q: Puzzle) {
    p.state == q.state
  }

  /** `is_solved`: equal to a default-constructed puzzle of the same size. */
  predicate IsSolved(p: Puzzle)
    requires p.n > 1
  {
    Same(p, Solved(p.n))
  }

  /** Every tile of the solved board is different. */
  lemma SolvedDistinct(n: nat)
    requires n > 1
    ensures Distinct(Solved(n).state)
  {
  }

  /**
   The default puzzle is solved, and any solved puzzle keeps its empty space in
   the lower right corner.
   */
  lemma SolvedHasBlankInCorner(p: Puzzle)
    requires Valid(p)
    ensures IsSolved(Solved(p.n))
    ensures IsSolved(p) ==> p.space == Area(p.n) - 1 && RowCol(p.n, p.space) == (p.n - 1, p.n - 1)
  {
    var s := Solved(p.n);
  }

  /** The rows of a two-dimensional array laid end to end. */
  function Concat(rows: seq<seq<int>>): (r: seq<int>) {
    if |rows| == 0 then [] else rows[0] + Concat(rows[1..])
  }

  /**
   `operator==` against an N×N array, cell by cell. Its first mismatch in
   row-major order decides; none means equal.
   */
  predicate SameAsGrid(p: Puzzle, rows: seq<seq<int>>)
    requires Valid(p) && |rows| == p.n && forall i :: 0 <= i < |rows| ==> |rows[i]| == p.n
  {
    forall i, j :: 0 <= i < p.n && 0 <= j < p.n ==> Cell(p, i, j) == rows[i][j]
  }

  /** Concatenating rows of width n puts row i, column j at n * i + j. */
  lemma {:induction false} ConcatAt(rows: seq<seq<int>>, n: nat, i: nat, j: nat)
    requires forall k :: 0 <= k < |rows| ==> |rows[k]| == n
    requires i < |rows| && j < n
    ensures |Concat(rows)| == n * |rows|
    ensures n * i + j < |Concat(rows)| && Concat(rows)[n * i + j] == rows[i][j]
  {
    ConcatLength(rows, n);
    if i > 0 {
      ConcatAt(rows[1..], n, i - 1, j);
      assert n * i + j == n + (n * (i - 1) + j);
    }
  }

  lemma {:induction false} ConcatLength(rows: seq<seq<int>>, n: nat)
    requires forall k :: 0 <= k < |rows| ==> |rows[k]| == n
    ensures |Concat(rows)| == n * |rows|
  {
    if |rows| > 0 {
      ConcatLength(rows[1..], n);
    }
  }

  /** Comparing with an array cell by cell is comparing with its rows laid end to end. */
  lemma SameAsGridFlat(p: Puzzle, rows: seq<seq<int>>)
    requires Valid(p) && |rows| == p.n && forall i :: 0 <= i < |rows| ==> |rows[i]| == p.n
    ensures SameAsGrid(p, rows) <==> p.state == Concat(rows)
  {
    var n := p.n;
    ConcatLength(rows, n);
    AreaIsSquare(n);
    var flat := Concat(rows);
    forall i, j | 0 <= i < n && 0 <= j < n
      ensures n * i + j < Area(n) && flat[n * i + j] == rows[i][j]
    {
      ConcatAt(rows, n, i, j);
    }
    if SameAsGrid(p, rows) {
      forall k | 0 <= k < Area(n)
        ensures p.state[k] == flat[k]
      {
        var (i, j) := RowCol(n, k);
        RowInside(n, k);
        RowColSplit(n, k);
        assert Cell(p, i, j) == rows[i][j];
      }
    }
  }

  /** `get_ij_of`: row and column of the first cell holding `item`; it aborts when there is none. */
  function CellOf(p: Puzzle, item: int): (r: (nat, nat))
    requires Valid(p) && item in p.state
    ensures r.0 < p.n && r.1 < p.n
  {
    IndexOfFinds(p.state, item);
    RowInside(p.n, IndexOf(p.state, item).value);
    RowCol(p.n, IndexOf(p.state, item).value)
  }

  /** The cell found holds `item`, and no cell before it in row-major order does. */
  lemma CellOfFinds(p: Puzzle, item: int)
    requires Valid(p) && item in p.state
    ensures Cell(p, CellOf(p, item).0, CellOf(p, item).1) == item
    ensures forall k :: 0 <= k < |p.state| && k < p.n * CellOf(p, item).0 + CellOf(p, item).1 ==> p.state[k] != item
  {
    IndexOfFinds(p.state, item);
    RowColSplit(p.n, IndexOf(p.state, item).value);
  }

  // ---------------------------------------------------------------------------
  // Moves
  // ---------------------------------------------------------------------------

  /** `can_move`: the empty space may travel one cell in the direction without leaving the board. */
  predicate CanMove(p: Puzzle, m: Move)
    requires Valid(p)
  {
    var (i, j) := RowCol(p.n, p.space);
    match m
    case Up => i > 0
    case Down => i < p.n - 1
    case Left => j > 0
    case Right => j < p.n - 1
  }

  /**
   The cell the empty space travels to: N * (i - 1) + j, N * (i + 1) + j,
   N * i + (j - 1) or N * i + (j + 1) for the space at row i, column j, that is
   N cells back or on, or one cell back or on.
   */
  function Target(p: Puzzle, m: Move): (t: nat)
    requires Valid(p) && CanMove(p, m)
    ensures t < |p.state| && t != p.space
  {
    match m
    case Up => NeighbourUp(p.n, p.space); p.space - p.n
    case Down => NeighbourDown(p.n, p.space); p.space + p.n
    case Left => NeighbourLeft(p.n, p.space); p.space - 1
    case Right => NeighbourRight(p.n, p.space); p.space + 1
  }

  /**
   `moved`: the puzzle after the move, or the puzzle itself when the move is
   illegal; the empty space changes places with the neighbouring tile.
   */
  function Moved(p: Puzzle, m: Move): (r: Puzzle)
    requires Valid(p)
    ensures Valid(r) && r.n == p.n
  {
    if !CanMove(p, m) then p
    else
      var t := Target(p, m);
      Puzzle(p.n, Swap(p.state, p.space, t), t)
  }

  /** A move keeps every tile. */
  lemma MovedKeepsTiles(p: Puzzle, m: Move)
    requires Valid(p)
    ensures multiset(Moved(p, m).state) == multiset(p.state)
  {
    if CanMove(p, m) {
      SwapKeepsTiles(p.state, p.space, Target(p, m));
    }
  }

  /**
   A legal move puts the neighbouring tile where the space was and the space
   where that tile was; every other cell keeps its tile.
   */
  lemma MoveSwapsTwoCells(p: Puzzle, m: Move)
    requires Valid(p) && CanMove(p, m)
    ensures Moved(p, m).space == Target(p, m)
    ensures Moved(p, m).state[p.space] == p.state[Target(p, m)]
    ensures forall k :: 0 <= k < |p.state| && k != p.space && k != Target(p, m) ==> Moved(p, m).state[k] == p.state[k]
  {
  }

  /**
   `move`: an illegal move reports false and changes nothing; a legal one
   reports true, keeps every tile and puts the empty space somewhere else.
   */
  function DoMove(p: Puzzle, m: Move): (r: MoveResult)
    requires Valid(p)
    ensures Valid(r.puzzle) && r.puzzle.n == p.n
    ensures r.ok <==> CanMove(p, m)
    ensures !r.ok ==> r.puzzle == p
    ensures r.ok ==> multiset(r.puzzle.state) == multiset(p.state) && r.puzzle.space != p.space
  {
    MovedKeepsTiles(p, m);
    MoveResult(CanMove(p, m), Moved(p, m))
  }

  function Opposite(m: Move): Move {
    match m
    case Up => Down
    case Down => Up
    case Left => Right
    case Right => Left
  }

  /** The row and column offset a direction moves the empty space by. */
  function Offset(m: Move): (int, int) {
    match m
    case Up => (-1, 0)
    case Down => (1, 0)
    case Left => (0, -1)
    case Right => (0, 1)
  }

  /** A legal move shifts the empty space by exactly one cell, in the named direction. */
  lemma MoveShiftsSpace(p: Puzzle, m: Move)
    requires Valid(p) && CanMove(p, m)
    ensures RowCol(p.n, Moved(p, m).space).0 == RowCol(p.n, p.space).0 + Offset(m).0
    ensures RowCol(p.n, Moved(p, m).space).1 == RowCol(p.n, p.space).1 + Offset(m).1
  {
    match m
    case Up => NeighbourUp(p.n, p.space);
    case Down => NeighbourDown(p.n, p.space);
    case Left => NeighbourLeft(p.n, p.space);
    case Right => NeighbourRight(p.n, p.space);
  }

  /** A legal move is undone by the opposite move. */
  lemma MoveUndone(p: Puzzle, m: Move)
    requires Valid(p) && CanMove(p, m)
    ensures CanMove(Moved(p, m), Opposite(m))
    ensures Moved(Moved(p, m), Opposite(m)) == p
  {
    var q := Moved(p, m);
    MoveShiftsSpace(p, m);
    RowInside(p.n, p.space);
    RowInside(p.n, q.space);
    assert CanMove(q, Opposite(m));
    assert Target(q, Opposite(m)) == p.space;
  }

  // ---------------------------------------------------------------------------
  // Solvability check of `set`
  // ---------------------------------------------------------------------------

  /**
   The two loops of `move_space_to_lower_right_`: `down` moves down, then
   `right` moves right, whether or not each one succeeds.
   */
  function Slide(p: Puzzle, down: int, right: int): (r: Puzzle)
    requires Valid(p)
    ensures Valid(r) && r.n == p.n
    decreases down, right
  {
    if down > 0 then Slide(Moved(p, Down), down - 1, right)
    else if right > 0 then Slide(Moved(p, Right), down, right - 1)
    else p
  }

  /** Sliding keeps every tile. */
  lemma {:induction false} SlideKeepsTiles(p: Puzzle, down: int, right: int)
    requires Valid(p)
    ensures multiset(Slide(p, down, right).state) == multiset(p.state)
    decreases down, right
  {
    if down > 0 {
      MovedKeepsTiles(p, Down);
      SlideKeepsTiles(Moved(p, Down), down - 1, right);
    } else if right > 0 {
      MovedKeepsTiles(p, Right);
      SlideKeepsTiles(Moved(p, Right), down, right - 1);
    }
  }

  /**
   From row i, column j, sliding down `down` rows and right `right` columns
   that stay on the board arrives at row i + down, column j + right.
   */
  lemma {:induction false} SlideArrives(p: Puzzle, down: nat, right: nat)
    requires Valid(p)
    requires RowCol(p.n, p.space).0 + down <= p.n - 1
    requires RowCol(p.n, p.space).1 + right <= p.n - 1
    ensures RowCol(p.n, Slide(p, down, right).space).0 == RowCol(p.n, p.space).0 + down
    ensures RowCol(p.n, Slide(p, down, right).space).1 == RowCol(p.n, p.space).1 + right
    decreases down, right
  {
    if down > 0 {
      MoveShiftsSpace(p, Down);
      SlideArrives(Moved(p, Down), down - 1, right);
    } else if right > 0 {
      MoveShiftsSpace(p, Right);
      SlideArrives(Moved(p, Right), down, right - 1);
    }
  }

  /**
   `move_space_to_lower_right_`: N-1-i moves down, then N-1-j moves right, for
   the empty space's starting row i and column j.
   */
  function SpaceToLowerRight(p: Puzzle): (r: Puzzle)
    requires Valid(p)
    ensures Valid(r) && r.n == p.n
  {
    Slide(p, p.n - 1 - RowCol(p.n, p.space).0, p.n - 1 - RowCol(p.n, p.space).1)
  }

  /** Afterwards the empty space is the last cell, and every tile is still there. */
  lemma SpaceEndsInCorner(p: Puzzle)
    requires Valid(p)
    ensures SpaceToLowerRight(p).space == Area(p.n) - 1
    ensures multiset(SpaceToLowerRight(p).state) == multiset(p.state)
  {
    RowInside(p.n, p.space);
    var i := RowCol(p.n, p.space).0;
    var j := RowCol(p.n, p.space).1;
    SlideArrives(p, p.n - 1 - i, p.n - 1 - j);
    SlideKeepsTiles(p, p.n - 1 - i, p.n - 1 - j);
    CornerIsLast(p.n, Slide(p, p.n - 1 - i, p.n - 1 - j).space);
  }

  /** A puzzle whose space already sits in the corner is not moved. */
  lemma CornerStays(p: Puzzle)
    requires Valid(p) && p.space == Area(p.n) - 1
    ensures SpaceToLowerRight(p) == p
  {
    LastCell(p.n);
  }

  /**
   `is_even_permutation_of_`: the decomposition of this state onto `state`
   succeeds and the sum of `|cycle| - 1` over its cycles is even.
   */
  predicate IsEvenPermutationOf(p: Puzzle, state: seq<int>)
    requires |state| == |p.state|
  {
    var d := CycleDecomposition(p.state, state);
    d.ok && PermutationOrder(d.cycles) % 2 == 0
  }

  /** A state holding other tiles than the receiver is never an even permutation of it. */
  lemma NotPermutationIsOdd(p: Puzzle, state: seq<int>)
    requires |state| == |p.state| && multiset(state) != multiset(p.state)
    ensures !IsEvenPermutationOf(p, state)
  {
    CyclesPartition(p.state, state);
  }

  /**
   For a receiver with distinct tiles and a rearrangement of them, the answer
   is exactly the parity of the cycle decomposition.
   */
  lemma EvenPermutationIsParity(p: Puzzle, state: seq<int>)
    requires |state| == |p.state| && Distinct(p.state) && multiset(state) == multiset(p.state)
    ensures IsEvenPermutationOf(p, state) <==> PermutationOrder(CycleDecomposition(p.state, state).cycles) % 2 == 0
  {
    SucceedsIffRearranges(p.state, state);
  }

  /** The outcome of `set`: the returned flag and the puzzle afterwards. */
  function Set(p: Puzzle, state: seq<int>): (r: MoveResult)
    requires Valid(p) && |state| == Area(p.n)
    ensures Valid(r.puzzle) && r.puzzle.n == p.n
    ensures !r.ok ==> r.puzzle == p
    ensures r.ok ==> r.puzzle.state == state && 0 in state
    ensures 0 !in state ==> !r.ok
  {
    IndexOfFinds(state, 0);
    match IndexOf(state, 0)
    case None => MoveResult(false, p)
    case Some(s) =>
      var test := SpaceToLowerRight(Puzzle(p.n, state, s));
      if IsEvenPermutationOf(p, test.state) then MoveResult(true, Puzzle(p.n, state, s))
      else MoveResult(false, p)
  }

  /**
   The solvability rule of `set`: with `s` the first 0 of the state, the state is
   accepted exactly when, once that 0 is moved to the lower right corner, it is
   an even permutation of the receiver; the puzzle then takes the state with its
   space at `s`.
   */
  lemma SetAcceptsEvenPermutations(p: Puzzle, state: seq<int>, s: nat)
    requires Valid(p) && |state| == Area(p.n)
    requires s < |state| && state[s] == 0 && forall k :: 0 <= k < s ==> state[k] != 0
    ensures Set(p, state).ok <==> IsEvenPermutationOf(p, SpaceToLowerRight(Puzzle(p.n, state, s)).state)
    ensures Set(p, state).ok ==> Set(p, state).puzzle == Puzzle(p.n, state, s)
  {
    IndexOfFinds(state, 0);
    assert IndexOf(state, 0) == Some(s);
  }

  /**
   An accepted state holds exactly the receiver's tiles, and its cached space
   index is the first 0 in it.
   */
  lemma SetKeepsTiles(p: Puzzle, state: seq<int>)
    requires Valid(p) && |state| == Area(p.n)
    ensures Set(p, state).ok ==> multiset(state) == multiset(p.state)
    ensures Set(p, state).ok ==> forall k :: 0 <= k < Set(p, state).puzzle.space ==> state[k] != 0
  {
    IndexOfFinds(state, 0);
    if Set(p, state).ok {
      var s := IndexOf(state, 0).value;
      var test := SpaceToLowerRight(Puzzle(p.n, state, s));
      SpaceEndsInCorner(Puzzle(p.n, state, s));
      if multiset(test.state) != multiset(p.state) {
        NotPermutationIsOdd(p, test.state);
      }
    }
  }

  /** A tile set other than the receiver's is refused and leaves the receiver as it was. */
  lemma SetRefusesOtherTiles(p: Puzzle, state: seq<int>)
    requires Valid(p) && |state| == Area(p.n) && multiset(state) != multiset(p.state)
    ensures Set(p, state) == MoveResult(false, p)
  {
    SetKeepsTiles(p, state);
  }

  /** The decomposition of distinct elements onto themselves: fixed points only. */
  lemma {:induction false} SelfWalk<T>(v: seq<T>, visited: seq<bool>, c: nat)
    requires |v| == |visited| && c < |v| && !visited[c] && Distinct(v)
    ensures Walk(v, v, visited, c, c, []) == Walked(true, visited[c := true], [v[c]])
  {
    IndexOfFinds(v, v[c]);
  }

  lemma {:induction false} SelfDecompose<T>(v: seq<T>, visited: seq<bool>)
    requires |v| == |visited| && Distinct(v)
    ensures Decompose(v, v, visited).ok
    ensures forall k :: 0 <= k < |Decompose(v, v, visited).cycles| ==> |Decompose(v, v, visited).cycles[k]| == 1
    ensures PermutationOrder(Decompose(v, v, visited).cycles) == 0
    decreases Unvisited(visited)
  {
    var start := FirstUnvisited(visited);
    if start < |visited| {
      SelfWalk(v, visited, start);
      MarkOne(visited, start);
      SelfDecompose(v, visited[start := true]);
      var d := Decompose(v, v, visited);
      assert d.cycles[1..] == Decompose(v, v, visited[start := true]).cycles;
    }
  }

  /** A board of distinct tiles is an even permutation of itself. */
  lemma SelfIsEven(p: Puzzle)
    requires Distinct(p.state)
    ensures IsEvenPermutationOf(p, p.state)
  {
    SelfDecompose(p.state, Clear(|p.state|));
  }

  /** The solved board is accepted by a solved puzzle, which stays as it is. */
  lemma SetSolvedOnSolved(n: nat)
    requires n > 1
    ensures Set(Solved(n), Solved(n).state) == MoveResult(true, Solved(n))
  {
    var s := Solved(n);
    IndexOfFinds(s.state, 0);
    SolvedDistinct(n);
    CornerStays(s);
    SelfIsEven(s);
  }

  /** Swapping two cells of pairwise distinct tiles keeps them pairwise distinct. */
  lemma SwapKeepsDistinct(v: seq<int>, a: nat, b: nat)
    requires a < |v| && b < |v| && Distinct(v)
    ensures Distinct(Swap(v, a, b))
  {
    SwapKeepsTiles(v, a, b);
    RearrangedDistinct(v, Swap(v, a, b));
  }

  /** Moving the space of a board one move from solved back to the corner solves it again. */
  lemma BackToCorner(n: nat, m: Move)
    requires n > 1
    ensures SpaceToLowerRight(Moved(Solved(n), m)) == Solved(n)
  {
    var p := Solved(n);
    var q := Moved(p, m);
    LastCell(n);
    if CanMove(p, m) {
      MoveShiftsSpace(p, m);
      MoveUndone(p, m);
      match m
      case Up =>
        assert SpaceToLowerRight(q) == Slide(q, 1, 0);
        assert Slide(q, 1, 0) == Slide(Moved(q, Down), 0, 0);
      case Left =>
        assert SpaceToLowerRight(q) == Slide(q, 0, 1);
        assert Slide(q, 0, 1) == Slide(Moved(q, Right), 0, 0);
    } else {
      CornerStays(p);
    }
  }

  /** In a board of distinct tiles the cached space is the first 0. */
  lemma SpaceIsFirstZero(q: Puzzle)
    requires Valid(q) && Distinct(q.state)
    ensures forall k :: 0 <= k < q.space ==> q.state[k] != 0
  {
    forall k | 0 <= k < q.space ensures q.state[k] != 0 {
      assert q.state[k] != q.state[q.space];
    }
  }

  /**
   A solved puzzle accepts the board one legal move away from it, and takes it
   with the space where the move left it: moving the space back to the corner
   undoes the move.
   */
  lemma SetAcceptsOneMove(n: nat, m: Move)
    requires n > 1
    ensures Set(Solved(n), Moved(Solved(n), m).state) == MoveResult(true, Moved(Solved(n), m))
  {
    var p := Solved(n);
    var q := Moved(p, m);
    SolvedDistinct(n);
    MovedKeepsTiles(p, m);
    RearrangedDistinct(p.state, q.state);
    SpaceIsFirstZero(q);
    SetAcceptsEvenPermutations(p, q.state, q.space);
    assert Puzzle(n, q.state, q.space) == q;
    BackToCorner(n, m);
    SelfIsEven(p);
  }

  /** The walk from a cell the swap of a and b leaves alone closes at once. */
  lemma SwapWalkFixed(v: seq<int>, a: nat, b: nat, visited: seq<bool>, c: nat)
    requires |v| == |visited| && a < |v| && b < |v| && c < |v| && c != a && c != b && !visited[c] && Distinct(v)
    ensures Walk(v, Swap(v, a, b), visited, c, c, []) == Walked(true, visited[c := true], [v[c]])
  {
    IndexOfFinds(v, v[c]);
  }

  /** In distinct tiles, each of two swapped cells holds the tile found at the other. */
  lemma SwapIndices(v: seq<int>, a: nat, b: nat)
    requires a < |v| && b < |v| && Distinct(v)
    ensures IndexOf(v, Swap(v, a, b)[a]) == Some(b) && IndexOf(v, Swap(v, a, b)[b]) == Some(a)
  {
    IndexOfFinds(v, v[b]);
    IndexOfFinds(v, v[a]);
  }

  /** The walk from the first of two swapped cells visits both and closes. */
  lemma SwapWalkPair(v: seq<int>, a: nat, b: nat, visited: seq<bool>)
    requires |v| == |visited| && a < b < |v| && !visited[a] && !visited[b] && Distinct(v)
    ensures Walk(v, Swap(v, a, b), visited, a, a, []) == Walked(true, visited[a := true][b := true], [v[a], v[b]])
  {
    var w := Swap(v, a, b);
    SwapIndices(v, a, b);
    var marked := visited[a := true];
    MarkOne(visited, a);
    assert Walk(v, w, visited, a, a, []) == Walk(v, w, marked, a, b, [v[a]]);
    assert !marked[b];
    MarkOne(marked, b);
    assert Walk(v, w, marked, a, b, [v[a]]) == Walked(true, marked[b := true], [v[a]] + [v[b]]);
  }

  /**
   The decomposition of distinct tiles onto the same tiles with two swapped:
   fixed points and one cycle of two, so its order is one when neither swapped
   cell is visited yet.
   */
  lemma {:induction false} SwapDecompose(v: seq<int>, a: nat, b: nat, visited: seq<bool>)
    requires |v| == |visited| && a < b < |v| && Distinct(v) && visited[a] == visited[b]
    ensures Decompose(v, Swap(v, a, b), visited).ok
    ensures PermutationOrder(Decompose(v, Swap(v, a, b), visited).cycles) == if visited[a] then 0 else 1
    decreases Unvisited(visited)
  {
    var w := Swap(v, a, b);
    var start := FirstUnvisited(visited);
    if start < |visited| {
      var d := Decompose(v, w, visited);
      if start == a {
        var marked := visited[a := true][b := true];
        SwapWalkPair(v, a, b, visited);
        MarkOne(visited, a);
        MarkOne(visited[a := true], b);
        SwapDecompose(v, a, b, marked);
        assert d.cycles[1..] == Decompose(v, w, marked).cycles;
      } else {
        assert start != b;
        SwapWalkFixed(v, a, b, visited, start);
        MarkOne(visited, start);
        SwapDecompose(v, a, b, visited[start := true]);
        assert d.cycles[1..] == Decompose(v, w, visited[start := true]).cycles;
      }
    } else {
      assert visited[a];
    }
  }

  /** A fresh bitset has no bit set. */
  lemma {:induction false} ClearIsClear(n: nat)
    ensures forall k :: 0 <= k < n ==> !Clear(n)[k]
  {
    if n > 0 {
      ClearIsClear(n - 1);
      assert forall k :: 1 <= k < n ==> Clear(n)[k] == Clear(n - 1)[k - 1];
    }
  }

  /** Distinct tiles with two of them swapped are an odd permutation of themselves. */
  lemma SwapIsOdd(p: Puzzle, a: nat, b: nat)
    requires a < b < |p.state| && Distinct(p.state)
    ensures !IsEvenPermutationOf(p, Swap(p.state, a, b))
  {
    ClearIsClear(|p.state|);
    SwapDecompose(p.state, a, b, Clear(|p.state|));
  }

  /** The only 0 of a solved board with two tiles swapped is still its last cell. */
  lemma SwappedSpace(n: nat, a: nat, b: nat)
    requires n > 1 && a < Area(n) - 1 && b < Area(n) - 1
    ensures Swap(Solved(n).state, a, b)[Area(n) - 1] == 0
    ensures forall k :: 0 <= k < Area(n) - 1 ==> Swap(Solved(n).state, a, b)[k] != 0
  {
    var v := Solved(n).state;
    forall k | 0 <= k < Area(n) - 1 ensures Swap(v, a, b)[k] != 0 {
      if k == b {
        assert Swap(v, a, b)[k] == v[a];
      } else if k == a {
        assert Swap(v, a, b)[k] == v[b];
      } else {
        assert Swap(v, a, b)[k] == v[k];
      }
    }
  }

  /**
   A solved board with two of its tiles swapped is an odd permutation of the
   solved board, so a solved puzzle refuses it and stays as it is.
   */
  lemma SetRefusesSwappedTiles(n: nat, a: nat, b: nat)
    requires n > 1 && a < Area(n) - 1 && b < Area(n) - 1 && a != b
    ensures Set(Solved(n), Swap(Solved(n).state, a, b)) == MoveResult(false, Solved(n))
  {
    var p := Solved(n);
    var lo := if a < b then a else b;
    var hi := if a < b then b else a;
    var state := Swap(p.state, a, b);
    assert state == Swap(p.state, lo, hi);
    var s := Area(n) - 1;
    SwappedSpace(n, a, b);
    SetAcceptsEvenPermutations(p, state, s);
    CornerStays(Puzzle(n, state, s));
    SolvedDistinct(n);
    SwapIsOdd(p, lo, hi);
  }
}
