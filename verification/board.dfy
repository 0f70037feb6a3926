/**
 Row-major addressing of an N×N board: index N * i + j is row i, column j
 (`row_col_from_index` and `operator()(i, j)` of the puzzle). The row and
 column are defined by repeated subtraction of N, which agrees with `/` and `%`
 (RowColIsDivMod) and keeps products out of everything that uses it.
 */
module Board {
  /** Two multiples of n are at least n apart. */
  lemma MulGap(n: nat, a: int, b: int)
    ensures a < b ==> n * a + n <= n * b
  {
    if a < b {
      var d := b - a;
      assert n * b == n * a + n * d;
      assert n * d >= n;
    }
  }

  lemma MulSucc(n: int, i: int)
    ensures n * (i + 1) == n * i + n
  {
  }

  /** `std::abs(a - b)`: how far apart two rows, columns or entries are. */
  function Dist(a: int, b: int): nat {
    if a >= b then a - b else b - a
  }

  /**
   The number of cells, N², summed as odd numbers 1 + 3 + … + (2N - 1) so that
   a bound on an index is not a product (AreaIsSquare).
   */
  function Area(n: nat): nat {
    if n == 0 then 0 else Area(n - 1) + 2 * n - 1
  }

  lemma {:induction false} AreaIsSquare(n: nat)
    ensures Area(n) == n * n
  {
    if n > 0 {
      AreaIsSquare(n - 1);
      assert n * n == (n - 1) * (n - 1) + 2 * n - 1;
    }
  }

  /** `row_col_from_index`: the row `idx / N` and column `idx % N` of a row-major index. */
  function RowCol(n: nat, idx: nat): (r: (nat, nat))
    requires n > 0
    ensures r.1 < n && r.0 <= idx
    decreases idx
  {
    if idx < n then (0, idx)
    else (RowCol(n, idx - n).0 + 1, RowCol(n, idx - n).1)
  }

  /** Row and column address the index back: `N * i + j`. */
  lemma {:induction false} RowColSplit(n: nat, idx: nat)
    requires n > 0
    ensures idx == n * RowCol(n, idx).0 + RowCol(n, idx).1
    decreases idx
  {
    if idx >= n {
      RowColSplit(n, idx - n);
      MulSucc(n, RowCol(n, idx - n).0);
    }
  }

  lemma DivModSplit(n: nat, idx: nat)
    requires n > 0
    ensures n * (idx / n) + idx % n == idx && 0 <= idx % n < n
  {
  }

  /** The subtraction agrees with C++'s unsigned `/` and `%`. */
  lemma RowColIsDivMod(n: nat, idx: nat)
    requires n > 0
    ensures RowCol(n, idx) == (idx / n, idx % n)
  {
    RowColSplit(n, idx);
    var (q, r) := RowCol(n, idx);
    var q' := idx / n;
    DivModSplit(n, idx);
    if q < q' {
      MulGap(n, q, q');
      assert false;
    }
    if q' < q {
      MulGap(n, q', q);
      assert false;
    }
  }

  /** Row i, column j is addressed as N * i + j, which lies on the board exactly for rows below N. */
  lemma RowColOf(n: nat, i: nat, j: nat)
    requires j < n
    ensures RowCol(n, n * i + j) == (i, j)
    ensures i < n ==> n * i + j < Area(n)
  {
    RowColOfRow(n, i, j);
    if i < n {
      AreaIsSquare(n);
      MulGap(n, i, n);
    }
  }

  lemma {:induction false} RowColOfRow(n: nat, i: nat, j: nat)
    requires j < n
    ensures RowCol(n, n * i + j) == (i, j)
    decreases i
  {
    if i > 0 {
      MulSucc(n, i - 1);
      RowColOfRow(n, i - 1, j);
      assert n * i + j == (n * (i - 1) + j) + n;
    }
  }

  /** The last cell, N² - 1, is the lower right corner. */
  lemma LastCell(n: nat)
    requires n > 0
    ensures n * (n - 1) + (n - 1) == Area(n) - 1
    ensures RowCol(n, Area(n) - 1) == (n - 1, n - 1)
  {
    AreaIsSquare(n);
    MulSucc(n, n - 1);
    RowColOf(n, n - 1, n - 1);
  }

  /** Only the last cell is in the lower right corner. */
  lemma CornerIsLast(n: nat, idx: nat)
    requires n > 0 && RowCol(n, idx) == (n - 1, n - 1)
    ensures idx == Area(n) - 1
  {
    RowColSplit(n, idx);
    var (i, j) := RowCol(n, idx);
    assert i == n - 1;
    assert n * i == n * (n - 1);
    LastCell(n);
  }

  /** A cell on the board has its row on the board. */
  lemma RowInside(n: nat, idx: nat)
    requires 0 < n && idx < Area(n)
    ensures RowCol(n, idx).0 < n
  {
    AreaIsSquare(n);
    RowColSplit(n, idx);
    MulGap(n, n - 1, RowCol(n, idx).0);
  }

  /** One row up is N cells back, and exists below the first row. */
  lemma NeighbourUp(n: nat, idx: nat)
    requires 0 < n && RowCol(n, idx).0 > 0
    ensures idx >= n && RowCol(n, idx - n) == (RowCol(n, idx).0 - 1, RowCol(n, idx).1)
  {
  }

  /** One row down is N cells on, and exists above the last row. */
  lemma NeighbourDown(n: nat, idx: nat)
    requires 0 < n && RowCol(n, idx).0 < n - 1
    ensures idx + n < Area(n) && RowCol(n, idx + n) == (RowCol(n, idx).0 + 1, RowCol(n, idx).1)
  {
    var i := RowCol(n, idx).0;
    RowColSplit(n, idx);
    AreaIsSquare(n);
    MulGap(n, i + 1, n);
    MulSucc(n, i);
  }

  /** One column left is one cell back, and exists right of the first column. */
  lemma {:induction false} NeighbourLeft(n: nat, idx: nat)
    requires 0 < n && RowCol(n, idx).1 > 0
    ensures idx >= 1 && RowCol(n, idx - 1) == (RowCol(n, idx).0, RowCol(n, idx).1 - 1)
    decreases idx
  {
    if idx >= n {
      NeighbourLeft(n, idx - n);
    }
  }

  /** One column right is one cell on, and exists left of the last column. */
  lemma {:induction false} NeighbourRight(n: nat, idx: nat)
    requires 0 < n && RowCol(n, idx).1 < n - 1
    ensures RowCol(n, idx + 1) == (RowCol(n, idx).0, RowCol(n, idx).1 + 1)
    ensures idx < Area(n) ==> idx + 1 < Area(n)
    decreases idx
  {
    if idx >= n {
      NeighbourRight(n, idx - n);
    }
    var (i, j) := RowCol(n, idx);
    RowColSplit(n, idx);
    RowColOf(n, i, j + 1);
    if idx < Area(n) {
      RowInside(n, idx);
    }
  }

  /** `std::swap` of two cells. */
  function Swap(s: seq<int>, a: nat, b: nat): (r: seq<int>)
    requires a < |s| && b < |s|
    ensures |r| == |s|
  {
    s[a := s[b]][b := s[a]]
  }

  /** A swap rearranges the cells. */
  lemma SwapKeepsTiles(s: seq<int>, a: nat, b: nat)
    requires a < |s| && b < |s|
    ensures multiset(Swap(s, a, b)) == multiset(s)
  {
    var t := s[a := s[b]];
    assert multiset(t) == multiset(s) - multiset{s[a]} + multiset{s[b]};
  }
}
