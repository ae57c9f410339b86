/**
 * The rules of 9x9 Sudoku on a board of integers, where 0 marks an empty
 * cell: which cells share a row, column or 3x3 box, when a board is
 * consistent, and when it is solved.
 */
module SudokuRules {

  /** A board: a list of rows of integers, as the program stores it. */
  type Grid = seq<seq<int>>

  /** A cell position (row, column). */
  datatype Pos = Pos(row: int, col: int)

  /** The board has 9 rows of 9 cells each. */
  predicate IsGrid(g: Grid)
  {
    |g| == 9 && forall i :: 0 <= i < 9 ==> |g[i]| == 9
  }

  predicate InBounds(i: int, j: int)
  {
    0 <= i < 9 && 0 <= j < 9
  }

  /** Every cell holds 0 (empty) or a digit 1..9. */
  ghost predicate InRange(g: Grid)
    requires IsGrid(g)
  {
    forall i, j :: InBounds(i, j) ==> 0 <= g[i][j] <= 9
  }

  /** No cell is empty. */
  ghost predicate NoEmptyCell(g: Grid)
    requires IsGrid(g)
  {
    forall i, j :: InBounds(i, j) ==> g[i][j] != 0
  }

  /** Cells (r1, c1) and (r2, c2) lie in the same row, column or 3x3 box. */
  predicate SameUnit(r1: int, c1: int, r2: int, c2: int)
  {
    r1 == r2 || c1 == c2 || (r1 / 3 == r2 / 3 && c1 / 3 == c2 / 3)
  }

  /** The number n occupies some cell other than (r, c) in the row,
      column or box of (r, c). */
  ghost predicate Conflicts(g: Grid, r: int, c: int, n: int)
    requires IsGrid(g)
  {
    exists i, j :: InBounds(i, j) && (i, j) != (r, c) && SameUnit(r, c, i, j) && g[i][j] == n
  }

  /** No two cells of one row, column or box hold the same non-zero
      number. */
  ghost predicate Consistent(g: Grid)
    requires IsGrid(g)
  {
    forall r, c :: InBounds(r, c) && g[r][c] != 0 ==> !Conflicts(g, r, c, g[r][c])
  }

  /** A solved board: every cell holds a digit 1..9 and no digit repeats
      in a row, column or box. */
  ghost predicate IsSolution(s: Grid)
  {
    && IsGrid(s)
    && (forall i, j :: InBounds(i, j) ==> 1 <= s[i][j] <= 9)
    && Consistent(s)
  }

  /** Board s keeps every non-empty cell of board g. */
  ghost predicate Agrees(s: Grid, g: Grid)
    requires IsGrid(s) && IsGrid(g)
  {
    forall i, j :: InBounds(i, j) && g[i][j] != 0 ==> s[i][j] == g[i][j]
  }

  /** The board after writing d into cell p (`board[row][column] = d`). */
  function Fill(g: Grid, p: Pos, d: int): (r: Grid)
    requires IsGrid(g) && InBounds(p.row, p.col)
    ensures IsGrid(r)
    ensures r[p.row][p.col] == d
    ensures forall i, j :: InBounds(i, j) && (i, j) != (p.row, p.col) ==> r[i][j] == g[i][j]
  {
    g[p.row := g[p.row][p.col := d]]
  }

  /** Writing a number that does not conflict into an empty cell of a
      consistent board keeps it consistent. */
  lemma FillConsistent(g: Grid, p: Pos, d: int)
    requires IsGrid(g) && InBounds(p.row, p.col) && Consistent(g)
    requires d != 0 && !Conflicts(g, p.row, p.col, d)
    ensures Consistent(Fill(g, p, d))
  {
    var g' := Fill(g, p, d);
    forall r, c | InBounds(r, c) && g'[r][c] != 0
      ensures !Conflicts(g', r, c, g'[r][c])
    {
      if (r, c) == (p.row, p.col) {
        assert forall i, j :: InBounds(i, j) && (i, j) != (r, c) && SameUnit(r, c, i, j) ==> g[i][j] != d;
      } else {
        assert !Conflicts(g, r, c, g[r][c]);
        forall i, j | InBounds(i, j) && (i, j) != (r, c) && SameUnit(r, c, i, j)
          ensures g'[i][j] != g'[r][c]
        {
          if (i, j) == (p.row, p.col) {
            assert SameUnit(p.row, p.col, r, c);
          }
        }
      }
    }
  }

  // ---------------------------------------------------------------------
  // Units: the 9 rows, 9 columns and 9 boxes, each as a sequence of 9 cells.

  function Column(g: Grid, c: int): (u: seq<int>)
    requires IsGrid(g) && 0 <= c < 9
    ensures |u| == 9 && forall k :: 0 <= k < 9 ==> u[k] == g[k][c]
  {
    seq(9, k requires 0 <= k < 9 => g[k][c])
  }

  /** Row of the k-th cell (row-major inside the box) of box b. */
  function BoxRow(b: int, k: int): int { 3 * (b / 3) + k / 3 }

  /** Column of the k-th cell (row-major inside the box) of box b. */
  function BoxCol(b: int, k: int): int { 3 * (b % 3) + k % 3 }

  /** The cells of a box lie on the board. */
  lemma BoxCellBounds(b: int, k: int)
    requires 0 <= b < 9 && 0 <= k < 9
    ensures InBounds(BoxRow(b, k), BoxCol(b, k))
  {
    assert 0 <= b / 3 < 3 && 0 <= b % 3 < 3;
    assert 0 <= k / 3 < 3 && 0 <= k % 3 < 3;
  }

  lemma BoxCellsBounds(b: int)
    requires 0 <= b < 9
    ensures forall k :: 0 <= k < 9 ==> InBounds(BoxRow(b, k), BoxCol(b, k))
  {
    forall k | 0 <= k < 9 ensures InBounds(BoxRow(b, k), BoxCol(b, k)) {
      BoxCellBounds(b, k);
    }
  }

  /** Cell k of box b lies in band b / 3 and stack b % 3, at offset
      (k / 3, k % 3) inside the box. */
  lemma BoxCell(b: int, k: int)
    requires 0 <= b < 9 && 0 <= k < 9
    ensures InBounds(BoxRow(b, k), BoxCol(b, k))
    ensures BoxRow(b, k) / 3 == b / 3 && BoxCol(b, k) / 3 == b % 3
    ensures BoxRow(b, k) % 3 == k / 3 && BoxCol(b, k) % 3 == k % 3
  {
    BoxCellBounds(b, k);
    DivThree(b / 3, k / 3);
    DivThree(b % 3, k % 3);
  }

  lemma DivThree(q: int, t: int)
    requires 0 <= t < 3
    ensures (3 * q + t) / 3 == q && (3 * q + t) % 3 == t
  {
  }

  function Box(g: Grid, b: int): (u: seq<int>)
    requires IsGrid(g) && 0 <= b < 9
    ensures |u| == 9
    ensures forall k :: 0 <= k < 9 ==> InBounds(BoxRow(b, k), BoxCol(b, k)) && u[k] == g[BoxRow(b, k)][BoxCol(b, k)]
  {
    BoxCellsBounds(b);
    seq(9, k requires 0 <= k < 9 => g[BoxRow(b, k)][BoxCol(b, k)])
  }

  /** A unit holds each digit 1..9 exactly once. */
  ghost predicate EachDigitOnce(u: seq<int>)
  {
    && |u| == 9
    && (forall k :: 0 <= k < 9 ==> 1 <= u[k] <= 9)
    && (forall k1, k2 :: 0 <= k1 < k2 < 9 ==> u[k1] != u[k2])
    && (forall d :: 1 <= d <= 9 ==> d in u)
  }

  /** Distinct elements drawn from S, at least as many as S has, cover S. */
  lemma {:induction false} DistinctCovers(u: seq<int>, S: set<int>)
    requires forall k :: 0 <= k < |u| ==> u[k] in S
    requires forall k1, k2 :: 0 <= k1 < k2 < |u| ==> u[k1] != u[k2]
    requires |u| >= |S|
    ensures forall x :: x in S ==> x in u
    decreases |u|
  {
    if |u| == 0 {
      assert S == {};
    } else {
      var S' := S - {u[0]};
      assert S * {u[0]} == {u[0]};
      assert |S'| == |S| - 1;
      DistinctCovers(u[1..], S');
      forall x | x in S ensures x in u {
        if x != u[0] {
          assert x in u[1..];
        }
      }
    }
  }

  /** Nine distinct digits are all the digits. */
  lemma Pigeonhole(u: seq<int>)
    requires |u| == 9
    requires forall k :: 0 <= k < 9 ==> 1 <= u[k] <= 9
    requires forall k1, k2 :: 0 <= k1 < k2 < 9 ==> u[k1] != u[k2]
    ensures forall d :: 1 <= d <= 9 ==> d in u
  {
    var digits := {1, 2, 3, 4, 5, 6, 7, 8, 9};
    assert |digits| == 9;
    DistinctCovers(u, digits);
    forall d | 1 <= d <= 9 ensures d in u {
      assert d in digits;
    }
  }

  lemma SolutionRow(s: Grid, n: int)
    requires IsSolution(s) && 0 <= n < 9
    ensures EachDigitOnce(s[n])
  {
    forall k1, k2 | 0 <= k1 < k2 < 9 ensures s[n][k1] != s[n][k2] {
      assert !Conflicts(s, n, k1, s[n][k1]);
    }
    Pigeonhole(s[n]);
  }

  lemma SolutionColumn(s: Grid, n: int)
    requires IsSolution(s) && 0 <= n < 9
    ensures EachDigitOnce(Column(s, n))
  {
    var col := Column(s, n);
    forall k1, k2 | 0 <= k1 < k2 < 9 ensures col[k1] != col[k2] {
      assert !Conflicts(s, k1, n, s[k1][n]);
    }
    Pigeonhole(col);
  }

  lemma SolutionBox(s: Grid, n: int)
    requires IsSolution(s) && 0 <= n < 9
    ensures EachDigitOnce(Box(s, n))
  {
    var box := Box(s, n);
    forall k1, k2 | 0 <= k1 < k2 < 9 ensures box[k1] != box[k2] {
      BoxCell(n, k1);
      BoxCell(n, k2);
      var r1, c1, r2, c2 := BoxRow(n, k1), BoxCol(n, k1), BoxRow(n, k2), BoxCol(n, k2);
      assert (r1, c1) != (r2, c2) && SameUnit(r1, c1, r2, c2);
      assert !Conflicts(s, r1, c1, s[r1][c1]);
    }
    Pigeonhole(box);
  }

  /** In a solution every row, column and box holds each digit exactly
      once. */
  lemma SolutionUnits(s: Grid)
    requires IsSolution(s)
    ensures forall n :: 0 <= n < 9 ==> EachDigitOnce(s[n]) && EachDigitOnce(Column(s, n)) && EachDigitOnce(Box(s, n))
  {
    forall n | 0 <= n < 9
      ensures EachDigitOnce(s[n]) && EachDigitOnce(Column(s, n)) && EachDigitOnce(Box(s, n))
    {
      SolutionRow(s, n);
      SolutionColumn(s, n);
      SolutionBox(s, n);
    }
  }

  /** Two different cells of a unit that holds each digit once differ. */
  lemma UnitCellsDiffer(u: seq<int>, k1: int, k2: int)
    requires EachDigitOnce(u) && 0 <= k1 < 9 && 0 <= k2 < 9 && k1 != k2
    ensures u[k1] != u[k2]
  {
    if k1 > k2 {
      assert u[k2] != u[k1];
    }
  }

  /** The box and the place inside it of cell (r, c). */
  lemma BoxOfCell(r: int, c: int) returns (b: int, k: int)
    requires InBounds(r, c)
    ensures 0 <= b < 9 && 0 <= k < 9
    ensures b == 3 * (r / 3) + c / 3 && k == 3 * (r % 3) + c % 3
    ensures BoxRow(b, k) == r && BoxCol(b, k) == c
  {
    b, k := 3 * (r / 3) + c / 3, 3 * (r % 3) + c % 3;
  }

  /** Conversely, a board whose every row, column and box holds each digit
      once is a solution. */
  lemma UnitsSolution(s: Grid)
    requires IsGrid(s)
    requires forall n :: 0 <= n < 9 ==> EachDigitOnce(s[n]) && EachDigitOnce(Column(s, n)) && EachDigitOnce(Box(s, n))
    ensures IsSolution(s)
  {
    forall r, c | InBounds(r, c) ensures 1 <= s[r][c] <= 9 {
      assert EachDigitOnce(s[r]);
    }
    forall r, c, i, j | InBounds(r, c) && InBounds(i, j) && (i, j) != (r, c) && SameUnit(r, c, i, j)
      ensures s[i][j] != s[r][c]
    {
      if i == r {
        UnitCellsDiffer(s[r], c, j);
      } else if j == c {
        UnitCellsDiffer(Column(s, c), r, i);
      } else {
        var b, k1 := BoxOfCell(r, c);
        var b', k2 := BoxOfCell(i, j);
        assert b == b';
        UnitCellsDiffer(Box(s, b), k1, k2);
      }
    }
  }
}
