/**
 The 3×3 magic-square example: a search from a given square to a magic
 square, where a step rewrites one entry and costs the change in value. A
 square is kept row by row, row i and column j at index 3 * i + j.
 */
module MagicSquares {
  import opened Board
  import opened Cycles
  import opened Paths
  import Problems
  import AStarSteps
  import AStar

  /** `magic_square_t`, 3×3, laid out row by row. */
  type Square = s: seq<int> | |s| == 9 witness [0, 0, 0, 0, 0, 0, 0, 0, 0]

  /**
   `canonical_magic_square`, entry for entry. The fourth entry is not a magic
   square (FourthEntryNotMagic).
   */
  const Canonical: seq<Square> := [
    [8, 1, 6, 3, 5, 7, 4, 9, 2],
    [6, 1, 8, 7, 5, 3, 2, 9, 4],
    [4, 9, 2, 3, 5, 7, 8, 1, 6],
    [2, 5, 4, 7, 5, 3, 6, 1, 8],
    [8, 3, 4, 1, 5, 9, 6, 7, 2],
    [4, 3, 8, 9, 5, 1, 2, 7, 6],
    [6, 7, 2, 1, 5, 9, 8, 3, 4],
    [2, 7, 6, 9, 5, 1, 4, 3, 8]
  ]

  /** `ms_numbers`: the values 1 … 9. */
  const Digits: seq<int> := [1, 2, 3, 4, 5, 6, 7, 8, 9]

  // ---------------------------------------------------------------------------
  // Sorting and duplicates
  // ---------------------------------------------------------------------------

  /**
   The nine entries in the order `sq_unique[3 * j + i] = sq[i][j]` stores
   them: column by column.
   */
  function ColumnMajor(sq: Square): (r: seq<int>)
    ensures |r| == 9
  {
    [sq[0], sq[3], sq[6], sq[1], sq[4], sq[7], sq[2], sq[5], sq[8]]
  }

  /** Storing column by column keeps every entry. */
  lemma ColumnMajorKeepsEntries(sq: Square)
    ensures multiset(ColumnMajor(sq)) == multiset(sq)
  {
    var t1 := Swap(sq, 1, 3);
    assert t1 == [sq[0], sq[3], sq[2], sq[1], sq[4], sq[5], sq[6], sq[7], sq[8]];
    var t2 := Swap(t1, 2, 6);
    assert t2 == [sq[0], sq[3], sq[6], sq[1], sq[4], sq[5], sq[2], sq[7], sq[8]];
    var t3 := Swap(t2, 5, 7);
    assert t3 == ColumnMajor(sq);
    SwapKeepsTiles(sq, 1, 3);
    SwapKeepsTiles(t1, 2, 6);
    SwapKeepsTiles(t2, 5, 7);
  }

  predicate Ascending(s: seq<int>) {
    forall i, j :: 0 <= i < j < |s| ==> s[i] <= s[j]
  }

  /** x placed before the first element not below it. */
  function Insert(x: int, s: seq<int>): (r: seq<int>)
    ensures |r| == |s| + 1
  {
    if |s| == 0 || x <= s[0] then [x] + s
    else [s[0]] + Insert(x, s[1..])
  }

  lemma {:induction false} InsertKeepsEntries(x: int, s: seq<int>)
    ensures multiset(Insert(x, s)) == multiset(s) + multiset{x}
    decreases |s|
  {
    if |s| > 0 && x > s[0] {
      InsertKeepsEntries(x, s[1..]);
      assert s == [s[0]] + s[1..];
    }
  }

  lemma {:induction false} InsertAscending(x: int, s: seq<int>)
    requires Ascending(s)
    ensures Ascending(Insert(x, s))
    decreases |s|
  {
    if |s| > 0 && x > s[0] {
      var t := Insert(x, s[1..]);
      InsertAscending(x, s[1..]);
      InsertKeepsEntries(x, s[1..]);
      forall k | 0 <= k < |t|
        ensures s[0] <= t[k]
      {
        assert t[k] in multiset(t);
      }
    }
  }

  /** `std::sort`, as insertion sort. */
  function Sort(s: seq<int>): (r: seq<int>)
    ensures |r| == |s|
  {
    if |s| == 0 then [] else Insert(s[0], Sort(s[1..]))
  }

  /** The sort leaves the entries ascending and keeps every one of them. */
  lemma {:induction false} SortSorts(s: seq<int>)
    ensures Ascending(Sort(s)) && multiset(Sort(s)) == multiset(s)
    decreases |s|
  {
    if |s| > 0 {
      SortSorts(s[1..]);
      InsertAscending(s[0], Sort(s[1..]));
      InsertKeepsEntries(s[0], Sort(s[1..]));
      assert s == [s[0]] + s[1..];
    }
  }

  /** `std::unique(…) != end()` on a range: some element equals its successor. */
  function AdjacentEqual(s: seq<int>): bool {
    |s| >= 2 && (s[0] == s[1] || AdjacentEqual(s[1..]))
  }

  /** In an ascending sequence neighbours repeat exactly when some element does. */
  lemma {:induction false} AscendingRepeats(s: seq<int>)
    requires Ascending(s)
    ensures AdjacentEqual(s) <==> !Distinct(s)
  {
    if |s| >= 2 {
      AscendingRepeats(s[1..]);
      if !Distinct(s) && s[0] != s[1] {
        var i, j :| 0 <= i < j < |s| && s[i] == s[j];
        if i > 0 {
          assert s[1..][i - 1] == s[1..][j - 1];
        }
      }
    }
  }

  /** The duplicate test of `is_magic_square` and `cost_fn`: sorted entries with a repeat. */
  lemma SortedRepeatsIffNotDistinct(sq: Square)
    ensures AdjacentEqual(Sort(ColumnMajor(sq))) <==> !Distinct(sq)
  {
    var s := Sort(ColumnMajor(sq));
    SortSorts(ColumnMajor(sq));
    ColumnMajorKeepsEntries(sq);
    AscendingRepeats(s);
    if Distinct(sq) {
      RearrangedDistinct(sq, s);
    }
    if Distinct(s) {
      RearrangedDistinct(s, sq);
    }
  }

  // ---------------------------------------------------------------------------
  // Goal test
  // ---------------------------------------------------------------------------

  /** Rows, columns and both diagonals each sum to 15. */
  predicate LinesSumTo15(sq: Square) {
    && sq[0] + sq[1] + sq[2] == 15 && sq[3] + sq[4] + sq[5] == 15 && sq[6] + sq[7] + sq[8] == 15
    && sq[0] + sq[3] + sq[6] == 15 && sq[1] + sq[4] + sq[7] == 15 && sq[2] + sq[5] + sq[8] == 15
    && sq[0] + sq[4] + sq[8] == 15
    && sq[2] + sq[4] + sq[6] == 15
  }

  /**
   `is_magic_square`: the sorted entries have no neighbouring repeat, then every
   row, every column, the main diagonal and the anti-diagonal sum to 15.
   */
  function IsMagic(sq: Square): bool {
    !AdjacentEqual(Sort(ColumnMajor(sq))) && LinesSumTo15(sq)
  }

  /** A magic square is nine different entries whose eight lines sum to 15. */
  lemma IsMagicMeans(sq: Square)
    ensures IsMagic(sq) <==> Distinct(sq) && LinesSumTo15(sq)
  {
    SortedRepeatsIffNotDistinct(sq);
  }

  /** The middle row, middle column and two diagonals cover the centre four times: it is 5. */
  lemma MagicCentreIsFive(sq: Square)
    requires IsMagic(sq)
    ensures sq[4] == 5
  {
  }

  /**
   Every table entry except the fourth has nine different entries and lines
   summing to 15, so is a magic square (IsMagicMeans).
   */
  lemma TableEntryMagic(k: nat)
    requires k < |Canonical| && k != 3
    ensures Distinct(Canonical[k]) && LinesSumTo15(Canonical[k])
  {
  }

  /** The fourth table entry is not a magic square: its first row sums to 11. */
  lemma FourthEntryNotMagic()
    ensures !LinesSumTo15(Canonical[3])
  {
  }

  // ---------------------------------------------------------------------------
  // Edge weight and heuristic
  // ---------------------------------------------------------------------------

  /** The sum of `abs(a[k] - b[k])` over the positions of two equally long sequences. */
  function L1(a: seq<int>, b: seq<int>): nat
    requires |a| == |b|
    decreases |a|
  {
    if |a| == 0 then 0 else Dist(a[0], b[0]) + L1(a[1..], b[1..])
  }

  /** `n_sq_diff`: the entries' differences in value, summed over the nine cells. */
  function NSqDiff(s1: Square, s2: Square): nat {
    L1(s1, s2)
  }

  lemma {:induction false} L1ZeroIffEqual(a: seq<int>, b: seq<int>)
    requires |a| == |b|
    ensures L1(a, b) == 0 <==> a == b
    decreases |a|
  {
    if |a| > 0 {
      L1ZeroIffEqual(a[1..], b[1..]);
      assert a == [a[0]] + a[1..] && b == [b[0]] + b[1..];
    }
  }

  lemma {:induction false} L1Symmetric(a: seq<int>, b: seq<int>)
    requires |a| == |b|
    ensures L1(a, b) == L1(b, a)
    decreases |a|
  {
    if |a| > 0 {
      L1Symmetric(a[1..], b[1..]);
    }
  }

  lemma {:induction false} L1Triangle(a: seq<int>, b: seq<int>, c: seq<int>)
    requires |a| == |b| == |c|
    ensures L1(a, c) <= L1(a, b) + L1(b, c)
    decreases |a|
  {
    if |a| > 0 {
      L1Triangle(a[1..], b[1..], c[1..]);
    }
  }

  /**
   The weight is a distance: 0 exactly between equal squares, the same in both
   directions, and never more than a detour through a third square.
   */
  lemma NSqDiffIsDistance(s1: Square, s2: Square, s3: Square)
    ensures NSqDiff(s1, s2) == 0 <==> s1 == s2
    ensures NSqDiff(s1, s2) == NSqDiff(s2, s1)
    ensures NSqDiff(s1, s3) <= NSqDiff(s1, s2) + NSqDiff(s2, s3)
  {
    L1ZeroIffEqual(s1, s2);
    L1Symmetric(s1, s2);
    L1Triangle(s1, s2, s3);
  }

  /**
   The loop of `cost_fn` over the entries of `table`, holding the smallest
   distance so far in `best`; a distance replaces it only when strictly smaller.
   */
  function NearestFrom(sq: Square, table: seq<Square>, best: int): (r: int)
    ensures r <= best
    ensures forall j :: 0 <= j < |table| ==> r <= NSqDiff(sq, table[j])
    decreases |table|
  {
    if |table| == 0 then best
    else
      var d := NSqDiff(sq, table[0]);
      NearestFrom(sq, table[1..], if d < best then d else best)
  }

  /** The result is the starting value or one of the distances looked at. */
  lemma {:induction false} NearestAttained(sq: Square, table: seq<Square>, best: int)
    ensures NearestFrom(sq, table, best) == best
         || exists j :: 0 <= j < |table| && NearestFrom(sq, table, best) == NSqDiff(sq, table[j])
    decreases |table|
  {
    if |table| > 0 {
      var d := NSqDiff(sq, table[0]);
      NearestAttained(sq, table[1..], if d < best then d else best);
      if NearestFrom(sq, table[1..], if d < best then d else best) != (if d < best then d else best) {
        var j :| 0 <= j < |table[1..]| && NearestFrom(sq, table[1..], if d < best then d else best) == NSqDiff(sq, table[1..][j]);
        assert table[1..][j] == table[j + 1];
      }
    }
  }

  /** `cost_fn`: the least distance to a table entry, starting from the largest `int`. */
  function CostFn(sq: Square): (r: nat)
    ensures forall j :: 0 <= j < |Canonical| ==> r <= NSqDiff(sq, Canonical[j])
  {
    NearestAttained(sq, Canonical, Problems.CostLimit);
    NearestFrom(sq, Canonical, Problems.CostLimit)
  }

  /**
   The heuristic is the distance to the nearest table entry, when the distances
   fit in an `int`.
   */
  lemma CostIsNearest(sq: Square)
    requires NSqDiff(sq, Canonical[0]) <= Problems.CostLimit
    ensures exists j :: 0 <= j < |Canonical| && CostFn(sq) == NSqDiff(sq, Canonical[j])
  {
    NearestAttained(sq, Canonical, Problems.CostLimit);
    if CostFn(sq) == Problems.CostLimit {
      assert CostFn(sq) == NSqDiff(sq, Canonical[0]);
    }
  }

  /** Starting above 0, the minimum reaches 0 exactly when the square is in the table. */
  lemma NearestZero(sq: Square, table: seq<Square>, best: int)
    requires best > 0
    ensures NearestFrom(sq, table, best) == 0 <==> sq in table
  {
    NearestAttained(sq, table, best);
    if sq in table {
      var j :| 0 <= j < |table| && table[j] == sq;
      NSqDiffIsDistance(sq, sq, sq);
    }
    if NearestFrom(sq, table, best) == 0 {
      var j :| 0 <= j < |table| && NearestFrom(sq, table, best) == NSqDiff(sq, table[j]);
      NSqDiffIsDistance(sq, table[j], sq);
      assert table[j] == sq;
    }
  }

  /** The heuristic is 0 exactly on the table entries. */
  lemma CostZeroIffTableEntry(sq: Square)
    ensures CostFn(sq) == 0 <==> sq in Canonical
  {
    NearestZero(sq, Canonical, Problems.CostLimit);
  }

  /** Rewriting one entry costs exactly the change in its value. */
  lemma {:induction false} L1OneChange(a: seq<int>, i: nat, v: int)
    requires i < |a|
    ensures L1(a, a[i := v]) == Dist(a[i], v)
    decreases |a|
  {
    if i > 0 {
      L1OneChange(a[1..], i - 1, v);
      assert a[i := v][1..] == a[1..][i - 1 := v];
    } else {
      assert a[i := v][1..] == a[1..];
      L1ZeroIffEqual(a[1..], a[1..]);
    }
  }

  // ---------------------------------------------------------------------------
  // Successors
  // ---------------------------------------------------------------------------

  /** The square with cell c rewritten to v (`sq_n[i][j] = …` on a copy). */
  function Rewrite(sq: Square, c: nat, v: int): Square
    requires c < 9
  {
    sq[c := v]
  }

  /** For cell c, the square with c rewritten to each value of `vals` that differs from it, in order. */
  function Replacements(sq: Square, c: nat, vals: seq<int>): seq<Square>
    requires c < 9
    decreases |vals|
  {
    if |vals| == 0 then []
    else (if vals[0] != sq[c] then [Rewrite(sq, c, vals[0])] else []) + Replacements(sq, c, vals[1..])
  }

  /** The replacements of cells c … 8 in row-major order, cell c drawing its values from `choices(c)`. */
  function EachCell(sq: Square, c: nat, choices: nat -> seq<int>): seq<Square>
    requires c <= 9
    decreases 9 - c
  {
    if c == 9 then [] else Replacements(sq, c, choices(c)) + EachCell(sq, c + 1, choices)
  }

  /** The value cell c has in each table entry, in table order. */
  function TableAt(c: nat): (r: seq<int>)
    ensures |r| == |Canonical|
    ensures c < 9 ==> forall k :: 0 <= k < |Canonical| ==> r[k] == Canonical[k][c]
  {
    seq(|Canonical|, k requires 0 <= k < |Canonical| => if c < 9 then Canonical[k][c] else 0)
  }

  /** `expand`: every cell rewritten to each of 1 … 9 it does not hold. */
  function Expand(sq: Square): seq<Square> {
    EachCell(sq, 0, c => Digits)
  }

  /** `expand2`: every cell rewritten to each table entry's value there that it does not hold. */
  function Expand2(sq: Square): seq<Square> {
    EachCell(sq, 0, TableAt)
  }

  lemma {:induction false} ReplacementsMembers(sq: Square, c: nat, vals: seq<int>, t: Square)
    requires c < 9
    ensures t in Replacements(sq, c, vals) <==> exists v :: v in vals && v != sq[c] && t == Rewrite(sq, c, v)
    decreases |vals|
  {
    if |vals| > 0 {
      ReplacementsMembers(sq, c, vals[1..], t);
      if exists v :: v in vals && v != sq[c] && t == Rewrite(sq, c, v) {
        var v :| v in vals && v != sq[c] && t == Rewrite(sq, c, v);
        if v != vals[0] {
          assert v in vals[1..];
        }
      }
    }
  }

  lemma {:induction false} EachCellMembers(sq: Square, c: nat, choices: nat -> seq<int>, t: Square)
    requires c <= 9
    ensures t in EachCell(sq, c, choices)
        <==> exists i, v :: c <= i < 9 && v in choices(i) && v != sq[i] && t == Rewrite(sq, i, v)
    decreases 9 - c
  {
    if c < 9 {
      EachCellMembers(sq, c + 1, choices, t);
      ReplacementsMembers(sq, c, choices(c), t);
    }
  }

  /** The successors of `expand` are exactly the squares with one cell rewritten to another of 1 … 9. */
  lemma ExpandMembers(sq: Square, t: Square)
    ensures t in Expand(sq) <==> exists i, v :: 0 <= i < 9 && 1 <= v <= 9 && v != sq[i] && t == Rewrite(sq, i, v)
  {
    var choices: nat -> seq<int> := c => Digits;
    EachCellMembers(sq, 0, choices, t);
    if t in Expand(sq) {
      var i, v :| 0 <= i < 9 && v in choices(i) && v != sq[i] && t == Rewrite(sq, i, v);
      DigitsAre(v);
    }
    if exists i, v :: 0 <= i < 9 && 1 <= v <= 9 && v != sq[i] && t == Rewrite(sq, i, v) {
      var i, v :| 0 <= i < 9 && 1 <= v <= 9 && v != sq[i] && t == Rewrite(sq, i, v);
      DigitsAre(v);
      assert v in choices(i);
    }
  }

  lemma DigitsAre(v: int)
    ensures v in Digits <==> 1 <= v <= 9
  {
    if 1 <= v <= 9 {
      assert Digits[v - 1] == v;
    }
  }

  /**
   The successors of `expand2` are exactly the squares with one cell rewritten
   to a different value some table entry has there.
   */
  lemma Expand2Members(sq: Square, t: Square)
    ensures t in Expand2(sq)
        <==> exists i, k :: 0 <= i < 9 && 0 <= k < |Canonical| && Canonical[k][i] != sq[i] && t == Rewrite(sq, i, Canonical[k][i])
  {
    EachCellMembers(sq, 0, TableAt, t);
    if t in Expand2(sq) {
      var i, v :| 0 <= i < 9 && v in TableAt(i) && v != sq[i] && t == Rewrite(sq, i, v);
      var k :| 0 <= k < |Canonical| && TableAt(i)[k] == v;
      assert Canonical[k][i] != sq[i] && t == Rewrite(sq, i, Canonical[k][i]);
    }
    if exists i, k :: 0 <= i < 9 && 0 <= k < |Canonical| && Canonical[k][i] != sq[i] && t == Rewrite(sq, i, Canonical[k][i]) {
      var i, k :| 0 <= i < 9 && 0 <= k < |Canonical| && Canonical[k][i] != sq[i] && t == Rewrite(sq, i, Canonical[k][i]);
      assert TableAt(i)[k] in TableAt(i);
    }
  }

  /** A step of `expand2` changes one cell and costs the change of its value. */
  lemma Expand2Step(sq: Square, t: Square)
    requires t in Expand2(sq)
    ensures exists i :: 0 <= i < 9 && t[i] != sq[i] && NSqDiff(sq, t) == Dist(sq[i], t[i])
                        && forall k :: 0 <= k < 9 && k != i ==> t[k] == sq[k]
  {
    Expand2Members(sq, t);
    var i, k :| 0 <= i < 9 && 0 <= k < |Canonical| && Canonical[k][i] != sq[i] && t == Rewrite(sq, i, Canonical[k][i]);
    L1OneChange(sq, i, Canonical[k][i]);
  }

  // ---------------------------------------------------------------------------
  // The older example: repeated values, `cost_fn` counting them, `expand`
  // ---------------------------------------------------------------------------

  /**
   The `adjacent_find` loop of the older `expand`: each element equal to its
   successor, in order. Searching on from the element after each find, a value
   occurring m times is collected m - 1 times.
   */
  function Repeated(s: seq<int>): (r: seq<int>)
    ensures |r| <= |s|
  {
    if |s| < 2 then []
    else (if s[0] == s[1] then [s[0]] else []) + Repeated(s[1..])
  }

  /** `std::unique`: each run of equal neighbours cut down to one element. */
  function Unique(s: seq<int>): (r: seq<int>)
    ensures |r| <= |s| && (|s| > 0 ==> |r| > 0)
  {
    if |s| < 2 then s
    else if s[0] == s[1] then Unique(s[1..])
    else [s[0]] + Unique(s[1..])
  }

  /** Every element is either kept by `unique` or collected as a repeat. */
  lemma {:induction false} UniqueAndRepeated(s: seq<int>)
    ensures |Unique(s)| + |Repeated(s)| == |s|
    decreases |s|
  {
    if |s| >= 2 {
      UniqueAndRepeated(s[1..]);
    }
  }

  /** The loop collects nothing exactly when no neighbours are equal. */
  lemma {:induction false} RepeatedIffAdjacent(s: seq<int>)
    ensures Repeated(s) == [] <==> !AdjacentEqual(s)
    decreases |s|
  {
    if |s| >= 2 {
      RepeatedIffAdjacent(s[1..]);
    }
  }

  /** `unique` keeps every value and invents none. */
  lemma {:induction false} UniqueKeepsValues(s: seq<int>, x: int)
    ensures x in Unique(s) <==> x in s
    decreases |s|
  {
    if |s| >= 2 {
      UniqueKeepsValues(s[1..], x);
      assert s == [s[0]] + s[1..];
    }
  }

  /** On an ascending sequence `unique` leaves each value once, strictly ascending. */
  lemma {:induction false} UniqueStrictlyAscending(s: seq<int>)
    requires Ascending(s)
    ensures forall i, j :: 0 <= i < j < |Unique(s)| ==> Unique(s)[i] < Unique(s)[j]
    decreases |s|
  {
    if |s| >= 2 {
      UniqueStrictlyAscending(s[1..]);
      if s[0] != s[1] {
        var u := Unique(s[1..]);
        forall k | 0 <= k < |u|
          ensures s[0] < u[k]
        {
          UniqueKeepsValues(s[1..], u[k]);
          var m :| 0 <= m < |s[1..]| && s[1..][m] == u[k];
          assert s[1] <= s[m + 1];
        }
      }
    }
  }

  /** In an ascending sequence, a value is collected as a repeat exactly when it occurs twice or more. */
  lemma {:induction false} RepeatedMeansTwice(s: seq<int>, x: int)
    requires Ascending(s)
    ensures x in Repeated(s) <==> multiset(s)[x] >= 2
    decreases |s|
  {
    if |s| >= 2 {
      var t := s[1..];
      assert s == [s[0]] + t;
      assert multiset(s)[x] == (if x == s[0] then 1 else 0) + multiset(t)[x];
      RepeatedMeansTwice(t, x);
      if x == s[0] && multiset(t)[x] >= 1 {
        var m :| 0 <= m < |t| && t[m] == x;
        assert s[1] <= s[m + 1];
      }
    } else if |s| == 1 {
      assert s == [s[0]];
    }
  }

  /** Two cells holding the same value make it occur twice. */
  lemma TwoCellsTwice(sq: Square, i: nat, j: nat)
    requires i < j < 9 && sq[i] == sq[j]
    ensures multiset(sq)[sq[i]] >= 2
  {
    assert sq == sq[..j] + sq[j..];
    assert sq[i] == sq[..j][i];
    assert sq[j] == sq[j..][0];
  }

  /**
   The older `cost_fn`: nine less the number of values left by `unique` on the
   sorted entries, so how many cells repeat a value of another.
   */
  function LegacyCostFn(sq: Square): (r: nat)
    ensures r <= 8
  {
    9 - |Unique(Sort(ColumnMajor(sq)))|
  }

  /** The older heuristic counts the repeats the older `expand` collects. */
  lemma LegacyCostCountsRepeats(sq: Square)
    ensures LegacyCostFn(sq) == |Repeated(Sort(ColumnMajor(sq)))|
  {
    UniqueAndRepeated(Sort(ColumnMajor(sq)));
  }

  /** The older heuristic is 0 exactly when the nine entries differ. */
  lemma LegacyCostZeroIffDistinct(sq: Square)
    ensures LegacyCostFn(sq) == 0 <==> Distinct(sq)
  {
    LegacyCostCountsRepeats(sq);
    RepeatedIffAdjacent(Sort(ColumnMajor(sq)));
    SortedRepeatsIffNotDistinct(sq);
  }

  /** The square with cell c rewritten to each value of `vals`, the unchanged one included. */
  function AllRewrites(sq: Square, c: nat, vals: seq<int>): (r: seq<Square>)
    requires c < 9
    ensures |r| == |vals|
  {
    seq(|vals|, k requires 0 <= k < |vals| => Rewrite(sq, c, vals[k]))
  }

  /** The loop over cells c … 8 of the older `expand`: each cell holding x rewritten to 1 … 9. */
  function CellsHolding(sq: Square, x: int, c: nat): seq<Square>
    requires c <= 9
    decreases 9 - c
  {
    if c == 9 then []
    else (if sq[c] == x then AllRewrites(sq, c, Digits) else []) + CellsHolding(sq, x, c + 1)
  }

  /** The outer `for (int r : replace)` loop. */
  function ForEachValue(sq: Square, rs: seq<int>): seq<Square>
  {
    if |rs| == 0 then [] else CellsHolding(sq, rs[0], 0) + ForEachValue(sq, rs[1..])
  }

  /**
   The older `expand`: for every collected repeat, in order, every cell holding
   it rewritten to each of 1 … 9. A value occurring three times is collected
   twice, so its successors are listed twice.
   */
  function LegacyExpand(sq: Square): seq<Square>
  {
    ForEachValue(sq, Repeated(Sort(ColumnMajor(sq))))
  }

  lemma AllRewritesMembers(sq: Square, c: nat, t: Square)
    requires c < 9
    ensures t in AllRewrites(sq, c, Digits) <==> exists v :: 1 <= v <= 9 && t == Rewrite(sq, c, v)
  {
    if t in AllRewrites(sq, c, Digits) {
      var k :| 0 <= k < 9 && AllRewrites(sq, c, Digits)[k] == t;
      assert 1 <= Digits[k] <= 9;
    }
    if exists v :: 1 <= v <= 9 && t == Rewrite(sq, c, v) {
      var v :| 1 <= v <= 9 && t == Rewrite(sq, c, v);
      assert AllRewrites(sq, c, Digits)[v - 1] == t;
    }
  }

  /** A rewrite of a cell holding x, at a cell from c on. */
  ghost predicate RewritesFrom(sq: Square, x: int, c: nat, t: Square) {
    exists i, v :: c <= i < 9 && sq[i] == x && 1 <= v <= 9 && t == Rewrite(sq, i, v)
  }

  lemma {:induction false} CellsHoldingMembers(sq: Square, x: int, c: nat, t: Square)
    requires c <= 9
    ensures t in CellsHolding(sq, x, c) <==> RewritesFrom(sq, x, c, t)
    decreases 9 - c
  {
    if c < 9 {
      CellsHoldingMembers(sq, x, c + 1, t);
      var here := if sq[c] == x then AllRewrites(sq, c, Digits) else [];
      assert CellsHolding(sq, x, c) == here + CellsHolding(sq, x, c + 1);
      if sq[c] == x {
        AllRewritesMembers(sq, c, t);
      }
      if t in here {
        var v :| 1 <= v <= 9 && t == Rewrite(sq, c, v);
        assert RewritesFrom(sq, x, c, t);
      }
      if RewritesFrom(sq, x, c, t) {
        var i, v :| c <= i < 9 && sq[i] == x && 1 <= v <= 9 && t == Rewrite(sq, i, v);
        if i > c {
          assert RewritesFrom(sq, x, c + 1, t);
        } else {
          assert t in here;
        }
      }
    }
  }

  /** A rewrite of a cell holding one of the values rs. */
  ghost predicate RewritesOf(sq: Square, rs: seq<int>, t: Square) {
    exists i, v :: 0 <= i < 9 && sq[i] in rs && 1 <= v <= 9 && t == Rewrite(sq, i, v)
  }

  lemma {:induction false} ForEachValueMembers(sq: Square, rs: seq<int>, t: Square)
    ensures t in ForEachValue(sq, rs) <==> RewritesOf(sq, rs, t)
    decreases |rs|
  {
    if |rs| > 0 {
      ForEachValueMembers(sq, rs[1..], t);
      CellsHoldingMembers(sq, rs[0], 0, t);
      if t in CellsHolding(sq, rs[0], 0) {
        var i, v :| 0 <= i < 9 && sq[i] == rs[0] && 1 <= v <= 9 && t == Rewrite(sq, i, v);
        assert RewritesOf(sq, rs, t);
      }
      if RewritesOf(sq, rs[1..], t) {
        var i, v :| 0 <= i < 9 && sq[i] in rs[1..] && 1 <= v <= 9 && t == Rewrite(sq, i, v);
        assert RewritesOf(sq, rs, t);
      }
      if RewritesOf(sq, rs, t) {
        var i, v :| 0 <= i < 9 && sq[i] in rs && 1 <= v <= 9 && t == Rewrite(sq, i, v);
        if sq[i] == rs[0] {
          assert RewritesFrom(sq, rs[0], 0, t);
        } else {
          assert sq[i] in rs[1..];
          assert RewritesOf(sq, rs[1..], t);
        }
      }
    }
  }

  /**
   The successors of the older `expand` are exactly the squares with a cell
   whose value occurs twice or more rewritten to one of 1 … 9.
   */
  lemma LegacyExpandMembers(sq: Square, t: Square)
    ensures t in LegacyExpand(sq)
        <==> exists i, v :: 0 <= i < 9 && multiset(sq)[sq[i]] >= 2 && 1 <= v <= 9 && t == Rewrite(sq, i, v)
  {
    var s := Sort(ColumnMajor(sq));
    SortSorts(ColumnMajor(sq));
    ColumnMajorKeepsEntries(sq);
    ForEachValueMembers(sq, Repeated(s), t);
    forall i | 0 <= i < 9
      ensures sq[i] in Repeated(s) <==> multiset(sq)[sq[i]] >= 2
    {
      RepeatedMeansTwice(s, sq[i]);
    }
    if RewritesOf(sq, Repeated(s), t) {
      var i, v :| 0 <= i < 9 && sq[i] in Repeated(s) && 1 <= v <= 9 && t == Rewrite(sq, i, v);
      assert multiset(sq)[sq[i]] >= 2;
    }
    if exists i, v :: 0 <= i < 9 && multiset(sq)[sq[i]] >= 2 && 1 <= v <= 9 && t == Rewrite(sq, i, v) {
      var i, v :| 0 <= i < 9 && multiset(sq)[sq[i]] >= 2 && 1 <= v <= 9 && t == Rewrite(sq, i, v);
      assert RewritesOf(sq, Repeated(s), t);
    }
  }

  /** The older `expand` offers nothing exactly when the nine entries differ. */
  lemma LegacyExpandEmptyIffDistinct(sq: Square)
    ensures LegacyExpand(sq) == [] <==> Distinct(sq)
  {
    if Distinct(sq) {
      SortedRepeatsIffNotDistinct(sq);
      RepeatedIffAdjacent(Sort(ColumnMajor(sq)));
    } else {
      var i, j :| 0 <= i < j < 9 && sq[i] == sq[j];
      TwoCellsTwice(sq, i, j);
      LegacyExpandMembers(sq, Rewrite(sq, i, 1));
    }
  }

  // ---------------------------------------------------------------------------
  // The searches
  // ---------------------------------------------------------------------------

  /** A path of rewrites costs at least the direct difference between its ends. */
  lemma {:induction false} PathCostAtLeastDistance(states: seq<Square>)
    requires |states| > 0
    ensures PathCost(NSqDiff, states) >= NSqDiff(states[0], states[|states| - 1])
    decreases |states|
  {
    var last := states[|states| - 1];
    if |states| == 1 {
      NSqDiffIsDistance(last, last, last);
    } else {
      var front := states[..|states| - 1];
      PathCostAtLeastDistance(front);
      NSqDiffIsDistance(states[0], front[|front| - 1], last);
    }
  }

  /** The search `formingMagicSquare` sets up, under the default ceiling of `a_star_search`. */
  function MagicProblem(s: Square): (p: Problems.Problem<Square>)
    ensures p.start == s && p.expand == Expand2 && p.w == NSqDiff && p.isGoal == IsMagic
    ensures p.h(s) <= p.maxCost
  {
    Problems.Problem(s, Expand2, CostFn, NSqDiff, IsMagic, Problems.CostLimit)
  }

  /**
   `formingMagicSquare`: A* from `s` with `expand2`, `cost_fn`, `n_sq_diff`
   and `is_magic_square`, under the default ceiling; `fuel` bounds its
   iterations. On failure it returns `false`, which is 0; otherwise
   `get_path_cost` of the path found.
   */
  method FormingMagicSquare(s: Square, fuel: nat) returns (cost: int, states: seq<Square>)
    ensures states == [] ==> cost == 0
    ensures states != [] ==>
              && states[0] == s && IsMagic(states[|states| - 1])
              && Contiguous(Expand2, states)
              && cost == PathCost(NSqDiff, states)
              && cost >= NSqDiff(s, states[|states| - 1])
    ensures fuel > 0 && IsMagic(s) ==> states == [s] && cost == 0
  {
    var stop, path, _ := AStar.Search(MagicProblem(s), fuel);
    if stop != AStarSteps.GoalReached {
      return 0, [];
    }
    states := path;
    cost := GetPathCost(NSqDiff, states);
    GetPathCostIsPathCost(NSqDiff, states);
    PathCostAtLeastDistance(states);
  }

  /**
   The older `formingMagicSquare` after its search: -1 for an empty path,
   otherwise the summed `n_sq_diff` of neighbouring states.
   */
  function LegacyFormingResult(states: seq<Square>): (r: int)
    ensures r == -1 <==> states == []
    ensures states != [] ==> r == PathCost(NSqDiff, states)
  {
    if states == [] then -1
    else
      GetPathCostIsPathCost(NSqDiff, states);
      GetPathCost(NSqDiff, states)
  }
}
