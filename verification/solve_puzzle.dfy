/**
 The puzzle as a search problem: successor generation, the Manhattan and
 misplaced-tile heuristics, the unit edge weight, the start-state validation
 of the solver and the legacy cost thresholds.
 */
module PuzzleSolving {
  import opened Board
  import opened Puzzles
  import opened Paths

  // ---------------------------------------------------------------------------
  // Successors
  // ---------------------------------------------------------------------------

  /** The position of a direction in the fixed order UP, DOWN, LEFT, RIGHT. */
  function Rank(m: Move): nat {
    match m
    case Up => 0
    case Down => 1
    case Left => 2
    case Right => 3
  }

  /** `[m]` when `can_move(m)`, else nothing. */
  function IfLegal(p: Puzzle, m: Move): (r: seq<Move>)
    requires Valid(p)
  {
    if CanMove(p, m) then [m] else []
  }

  /** The legal directions, in the order UP, DOWN, LEFT, RIGHT. */
  function LegalMoves(p: Puzzle): (r: seq<Move>)
    requires Valid(p)
    ensures forall m :: m in r <==> CanMove(p, m)
    ensures forall i, j :: 0 <= i < j < |r| ==> Rank(r[i]) < Rank(r[j])
  {
    IfLegal(p, Up) + IfLegal(p, Down) + IfLegal(p, Left) + IfLegal(p, Right)
  }

  /** `moved(m)` when `can_move(m)`, else nothing: one step of the loop of `expand`. */
  function MovedIfLegal(p: Puzzle, m: Move): (r: seq<Puzzle>)
    requires Valid(p)
  {
    if CanMove(p, m) then [Moved(p, m)] else []
  }

  /** `expand`: `moved(m)` for every m of UP, DOWN, LEFT, RIGHT that `can_move` allows. */
  function Expand(p: Puzzle): (r: seq<Puzzle>)
    requires Valid(p)
    ensures forall q :: q in r ==> Valid(q) && q.n == p.n
  {
    MovedIfLegal(p, Up) + MovedIfLegal(p, Down) + MovedIfLegal(p, Left) + MovedIfLegal(p, Right)
  }

  /** `ps` holds the puzzle moved by each of `ms`, in the same order. */
  predicate Follows(p: Puzzle, ps: seq<Puzzle>, ms: seq<Move>)
    requires Valid(p)
  {
    |ps| == |ms| && forall k :: 0 <= k < |ps| ==> ps[k] == Moved(p, ms[k])
  }

  lemma FollowsJoin(p: Puzzle, ps: seq<Puzzle>, ms: seq<Move>, m: Move)
    requires Valid(p) && Follows(p, ps, ms)
    ensures Follows(p, ps + MovedIfLegal(p, m), ms + IfLegal(p, m))
  {
  }

  /** The k-th successor is the puzzle moved by the k-th legal direction. */
  lemma ExpandFollowsLegalMoves(p: Puzzle)
    requires Valid(p)
    ensures |Expand(p)| == |LegalMoves(p)|
    ensures forall k :: 0 <= k < |Expand(p)| ==> Expand(p)[k] == Moved(p, LegalMoves(p)[k])
  {
    FollowsJoin(p, [], [], Up);
    FollowsJoin(p, MovedIfLegal(p, Up), IfLegal(p, Up), Down);
    FollowsJoin(p, MovedIfLegal(p, Up) + MovedIfLegal(p, Down), IfLegal(p, Up) + IfLegal(p, Down), Left);
    FollowsJoin(p, MovedIfLegal(p, Up) + MovedIfLegal(p, Down) + MovedIfLegal(p, Left),
      IfLegal(p, Up) + IfLegal(p, Down) + IfLegal(p, Left), Right);
    assert [] + MovedIfLegal(p, Up) == MovedIfLegal(p, Up);
    assert [] + IfLegal(p, Up) == IfLegal(p, Up);
  }

  /** Every legal move is among the successors, and every successor is one legal move away. */
  lemma ExpandIsOneMove(p: Puzzle, q: Puzzle)
    requires Valid(p)
    ensures q in Expand(p) <==> exists m :: CanMove(p, m) && q == Moved(p, m)
  {
    ExpandFollowsLegalMoves(p);
    if q in Expand(p) {
      var k :| 0 <= k < |Expand(p)| && Expand(p)[k] == q;
      var m := LegalMoves(p)[k];
      assert CanMove(p, m) && q == Moved(p, m);
    }
  }

  /** A board with N > 1 always has two to four successors. */
  lemma ExpandSize(p: Puzzle)
    requires Valid(p)
    ensures 2 <= |Expand(p)| <= 4
  {
    RowInside(p.n, p.space);
  }

  /** The successor relation is symmetric: the opposite move leads back. */
  lemma ExpandSymmetric(p: Puzzle, q: Puzzle)
    requires Valid(p) && q in Expand(p)
    ensures Valid(q) && p in Expand(q)
  {
    ExpandIsOneMove(p, q);
    var m :| CanMove(p, m) && q == Moved(p, m);
    MoveUndone(p, m);
    ExpandIsOneMove(q, p);
  }

  /** Every successor holds the same tiles. */
  lemma ExpandKeepsTiles(p: Puzzle, q: Puzzle)
    requires Valid(p) && q in Expand(p)
    ensures multiset(q.state) == multiset(p.state)
  {
    ExpandIsOneMove(p, q);
    var m :| CanMove(p, m) && q == Moved(p, m);
    MovedKeepsTiles(p, m);
  }

  // ---------------------------------------------------------------------------
  // Manhattan distance
  // ---------------------------------------------------------------------------

  /** Every tile 1 … N²-1 is on the board, which `get_ij_of` needs to return. */
  predicate HasTiles(p: Puzzle)
    requires Valid(p)
  {
    forall t :: 1 <= t < Area(p.n) ==> t in p.state
  }

  /** How far tile t is from where the goal has it: rows plus columns. */
  function TileDist(p: Puzzle, goal: Puzzle, t: int): nat
    requires Valid(p) && Valid(goal) && t in p.state && t in goal.state
  {
    Dist(CellOf(goal, t).0, CellOf(p, t).0) + Dist(CellOf(goal, t).1, CellOf(p, t).1)
  }

  /** The distances of the tiles `from` … N²-1, summed. */
  function Taxicab(p: Puzzle, goal: Puzzle, from: nat): nat
    requires Valid(p) && Valid(goal) && p.n == goal.n && HasTiles(p) && HasTiles(goal) && from >= 1
    decreases Area(p.n) - from
  {
    if from >= Area(p.n) then 0
    else TileDist(p, goal, from) + Taxicab(p, goal, from + 1)
  }

  /**
   `tile_taxicab_dist`: the sum over the tiles 1 … N²-1 of their row and column
   distance to the goal's position of that tile. The empty space is not counted.
   */
  function TileTaxicabDist(p: Puzzle, goal: Puzzle): nat
    requires Valid(p) && Valid(goal) && p.n == goal.n && HasTiles(p) && HasTiles(goal)
  {
    Taxicab(p, goal, 1)
  }

  lemma {:induction false} TaxicabZero(p: Puzzle, goal: Puzzle, from: nat)
    requires Valid(p) && Valid(goal) && p.n == goal.n && HasTiles(p) && HasTiles(goal) && from >= 1
    ensures Taxicab(p, goal, from) == 0
        <==> forall t :: from <= t < Area(p.n) ==> CellOf(p, t) == CellOf(goal, t)
    decreases Area(p.n) - from
  {
    if from < Area(p.n) {
      TaxicabZero(p, goal, from + 1);

    }
  }

  /** The distance is 0 exactly when every tile stands where the goal has it. */
  lemma TaxicabZeroIffInPlace(p: Puzzle, goal: Puzzle)
    requires Valid(p) && Valid(goal) && p.n == goal.n && HasTiles(p) && HasTiles(goal)
    ensures TileTaxicabDist(p, goal) == 0
        <==> forall t :: 1 <= t < Area(p.n) ==> CellOf(p, t) == CellOf(goal, t)
  {
    TaxicabZero(p, goal, 1);
  }

  /** A puzzle is at distance 0 from itself. */
  lemma TaxicabSelf(p: Puzzle)
    requires Valid(p) && HasTiles(p)
    ensures TileTaxicabDist(p, p) == 0
  {
    TaxicabZeroIffInPlace(p, p);
  }

  lemma {:induction false} TaxicabSwap(p: Puzzle, goal: Puzzle, from: nat)
    requires Valid(p) && Valid(goal) && p.n == goal.n && HasTiles(p) && HasTiles(goal) && from >= 1
    ensures Taxicab(p, goal, from) == Taxicab(goal, p, from)
    decreases Area(p.n) - from
  {
    if from < Area(p.n) {
      TaxicabSwap(p, goal, from + 1);
    }
  }

  /** The distance does not depend on which board is the goal. */
  lemma TaxicabSymmetric(p: Puzzle, goal: Puzzle)
    requires Valid(p) && Valid(goal) && p.n == goal.n && HasTiles(p) && HasTiles(goal)
    ensures TileTaxicabDist(p, goal) == TileTaxicabDist(goal, p)
  {
    TaxicabSwap(p, goal, 1);
  }

  // ---------------------------------------------------------------------------
  // Misplaced tiles
  // ---------------------------------------------------------------------------

  /** `inner_product(…, plus, equal_to)`: the number of positions holding equal tiles. */
  function Matches(a: seq<int>, b: seq<int>): (r: nat)
    requires |a| == |b|
    ensures r <= |a|
    decreases |a|
  {
    if |a| == 0 then 0
    else (if a[0] == b[0] then 1 else 0) + Matches(a[1..], b[1..])
  }

  /**
   `misplaced_tiles`: N² less the positions on which the boards agree. The
   empty space counts like a tile.
   */
  function MisplacedTiles(p: Puzzle, goal: Puzzle): (r: nat)
    requires Valid(p) && Valid(goal) && p.n == goal.n
    ensures r <= Area(p.n)
  {
    Area(p.n) - Matches(p.state, goal.state)
  }

  lemma {:induction false} AllMatchIffEqual(a: seq<int>, b: seq<int>)
    requires |a| == |b|
    ensures Matches(a, b) == |a| <==> a == b
    decreases |a|
  {
    if |a| > 0 {
      AllMatchIffEqual(a[1..], b[1..]);
      assert a == [a[0]] + a[1..] && b == [b[0]] + b[1..];
    }
  }

  lemma {:induction false} MatchesSymmetric(a: seq<int>, b: seq<int>)
    requires |a| == |b|
    ensures Matches(a, b) == Matches(b, a)
    decreases |a|
  {
    if |a| > 0 {
      MatchesSymmetric(a[1..], b[1..]);
    }
  }

  /** Changing one position changes the count by that position's verdict only. */
  lemma {:induction false} MatchesUpdate(a: seq<int>, b: seq<int>, k: nat, v: int)
    requires |a| == |b| && k < |a|
    ensures Matches(a[k := v], b) + (if a[k] == b[k] then 1 else 0)
         == Matches(a, b) + (if v == b[k] then 1 else 0)
    decreases |a|
  {
    if k > 0 {
      MatchesUpdate(a[1..], b[1..], k - 1, v);
      assert a[k := v][1..] == a[1..][k - 1 := v];
    } else {
      assert a[k := v][1..] == a[1..];
    }
  }

  /** No tile is misplaced exactly when the boards are equal. */
  lemma MisplacedZeroIffSame(p: Puzzle, goal: Puzzle)
    requires Valid(p) && Valid(goal) && p.n == goal.n
    ensures MisplacedTiles(p, goal) == 0 <==> Same(p, goal)
  {
    AllMatchIffEqual(p.state, goal.state);
  }

  /** The count does not depend on which board is the goal. */
  lemma MisplacedSymmetric(p: Puzzle, goal: Puzzle)
    requires Valid(p) && Valid(goal) && p.n == goal.n
    ensures MisplacedTiles(p, goal) == MisplacedTiles(goal, p)
  {
    MatchesSymmetric(p.state, goal.state);
  }

  /** One move changes two cells, so the count changes by at most two. */
  lemma MisplacedAfterMove(p: Puzzle, goal: Puzzle, m: Move)
    requires Valid(p) && Valid(goal) && p.n == goal.n
    ensures MisplacedTiles(Moved(p, m), goal) <= MisplacedTiles(p, goal) + 2
    ensures MisplacedTiles(p, goal) <= MisplacedTiles(Moved(p, m), goal) + 2
  {
    if CanMove(p, m) {
      var t := Target(p, m);
      var s := p.state;
      MatchesUpdate(s, goal.state, p.space, s[t]);
      MatchesUpdate(s[p.space := s[t]], goal.state, t, s[p.space]);
    }
  }

  // ---------------------------------------------------------------------------
  // Edge weight
  // ---------------------------------------------------------------------------

  /** `neighbor_dist`: every move costs one. */
  function NeighborDist(p: Puzzle, q: Puzzle): nat {
    1
  }

  /** A solution path costs the number of moves it makes. */
  lemma PathCostCountsMoves(path: seq<Puzzle>)
    requires |path| > 0
    ensures PathCost((p, q) => NeighborDist(p, q), path) == |path| - 1
  {
    UnitCostCountsEdges((p, q) => NeighborDist(p, q), path);
  }

  // ---------------------------------------------------------------------------
  // Start states
  // ---------------------------------------------------------------------------

  /**
   `add_puzzle_state`: a default puzzle is appended and then `set` to the
   state; a refused state leaves the appended puzzle solved.
   */
  function AddPuzzleState(states: seq<Puzzle>, n: nat, state: seq<int>): (r: seq<Puzzle>)
    requires n > 1 && |state| == Area(n)
    ensures |r| == |states| + 1 && r[..|states|] == states
    ensures Valid(r[|states|]) && r[|states|].n == n
  {
    states + [Set(Solved(n), state).puzzle]
  }

  /**
   The appended puzzle shows the given state when `set` accepts it and is the
   solved board otherwise; either way it holds the solved board's tiles.
   */
  lemma AddedPuzzle(states: seq<Puzzle>, n: nat, state: seq<int>)
    requires n > 1 && |state| == Area(n)
    ensures Set(Solved(n), state).ok ==> AddPuzzleState(states, n, state)[|states|].state == state
    ensures !Set(Solved(n), state).ok ==> AddPuzzleState(states, n, state)[|states|] == Solved(n)
    ensures multiset(AddPuzzleState(states, n, state)[|states|].state) == multiset(Solved(n).state)
  {
    SetKeepsTiles(Solved(n), state);
  }

  /** How the solver starts: a shuffled board, a refused state, or the given board. */
  datatype Start = Shuffle | Rejected | Given(puzzle: Puzzle)

  /**
   The validation at the start of `solve_n_sq_puzzle`: no state means a
   shuffled board; a state of the wrong length, or one `set` refuses, is
   rejected; otherwise the search starts from it.
   */
  function StartFrom(n: nat, given: seq<int>): (r: Start)
    requires n > 1
    ensures r.Shuffle? <==> |given| == 0
    ensures |given| > 0 && |given| != Area(n) ==> r.Rejected?
    ensures r.Given? ==> Valid(r.puzzle) && r.puzzle.n == n && r.puzzle.state == given
    ensures r.Given? ==> multiset(given) == multiset(Solved(n).state)
  {
    if |given| == 0 then Shuffle
    else if |given| != Area(n) then Rejected
    else
      SetKeepsTiles(Solved(n), given);
      var outcome := Set(Solved(n), given);
      if outcome.ok then Given(outcome.puzzle) else Rejected
  }

  /** A state of the right length is accepted exactly when `set` accepts it. */
  lemma StartAcceptsWhatSetAccepts(n: nat, given: seq<int>)
    requires n > 1 && |given| == Area(n)
    ensures StartFrom(n, given).Given? <==> Set(Solved(n), given).ok
  {
  }

  // ---------------------------------------------------------------------------
  // Legacy cost thresholds
  // ---------------------------------------------------------------------------

  /** `no_max_cost`: no cost is ever too high. */
  function NoMaxCost(cost: nat): (r: bool)
    ensures !r
  {
    false
  }

  /**
   `max_path_cost<N>`: a path cost of 31 or more is too high for N = 3, of 80
   or more for N = 4; no cost is too high for any other N.
   */
  function MaxPathCost(n: nat, cost: nat): bool {
    if n == 3 then cost >= 31
    else if n == 4 then cost >= 80
    else false
  }

  /** The thresholds are upward closed: a cost above a refused one is refused too. */
  lemma MaxPathCostUpward(n: nat, c: nat, d: nat)
    requires MaxPathCost(n, c) && c <= d
    ensures MaxPathCost(n, d)
  {
  }

  /** Exactly the 3×3 and 4×4 puzzles have a ceiling, at 31 and 80 moves. */
  lemma MaxPathCostCeilings(n: nat, cost: nat)
    ensures MaxPathCost(n, cost) <==> (n == 3 && cost >= 31) || (n == 4 && cost >= 80)
  {
  }
}
