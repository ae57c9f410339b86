/**
 * The solver as the program runs it: a 9x9 board held in a mutable
 * two-dimensional array, scanned for its first empty cell, checked cell by
 * cell for conflicts, and filled in place by a recursive depth-first search
 * that writes a candidate, recurses, and writes 0 back when the branch
 * fails.
 */
module SudokuSolver {
  import opened Wrappers
  import opened SudokuRules
  import opened SearchSpec

  /** The board held in array a, as a value. */
  function Rows(a: array2<int>): (g: Grid)
    reads a
    requires a.Length0 == 9 && a.Length1 == 9
    ensures IsGrid(g) && forall i, j :: InBounds(i, j) ==> g[i][j] == a[i, j]
  {
    seq(9, i requires 0 <= i < 9 reads a => seq(9, j requires 0 <= j < 9 reads a => a[i, j]))
  }

  /** An array holding the cells of g holds g. */
  lemma RowsEqual(a: array2<int>, g: Grid)
    requires a.Length0 == 9 && a.Length1 == 9 && IsGrid(g)
    requires forall i, j :: InBounds(i, j) ==> a[i, j] == g[i][j]
    ensures Rows(a) == g
  {
    var r := Rows(a);
    forall i | 0 <= i < 9 ensures r[i] == g[i] {
      assert forall j :: 0 <= j < 9 ==> r[i][j] == g[i][j];
    }
  }

  /** Scans the rows top to bottom and each row left to right and returns
      the first cell holding 0, or None when there is none. */
  method FindEmptyLocation(board: array2<int>) returns (empty: Option<Pos>)
    requires board.Length0 == 9 && board.Length1 == 9
    ensures empty.None? <==> forall i, j :: InBounds(i, j) ==> board[i, j] != 0
    ensures empty.Some? ==>
      && InBounds(empty.value.row, empty.value.col)
      && board[empty.value.row, empty.value.col] == 0
      && forall i, j :: InBounds(i, j) && Before(i, j, empty.value.row, empty.value.col) ==> board[i, j] != 0
    ensures empty == FirstEmpty(Rows(board))
  {
    for i := 0 to 9
      invariant forall i', j' :: 0 <= i' < i && 0 <= j' < 9 ==> board[i', j'] != 0
    {
      for j := 0 to 9
        invariant forall j' :: 0 <= j' < j ==> board[i, j'] != 0
      {
        if board[i, j] == 0 {
          FirstEmptyUnique(Rows(board), Pos(i, j));
          return Some(Pos(i, j));
        }
      }
    }
    return None;
  }

  /** Checks the row, then the column, then the 3x3 box of position for a
      cell other than position itself that holds number. */
  method ValidSolution(board: array2<int>, position: Pos, number: int) returns (valid: bool)
    requires board.Length0 == 9 && board.Length1 == 9
    requires InBounds(position.row, position.col)
    ensures valid <==> !Conflicts(Rows(board), position.row, position.col, number)
  {
    var r, c := position.row, position.col;
    // the row
    for i := 0 to 9
      invariant forall i' :: 0 <= i' < i && board[r, i'] == number ==> i' == c
    {
      if board[r, i] == number && c != i {
        assert Rows(board)[r][i] == number && SameUnit(r, c, r, i);
        return false;
      }
    }
    // the column
    for j := 0 to 9
      invariant forall j' :: 0 <= j' < j && board[j', c] == number ==> j' == r
    {
      if board[j, c] == number && r != j {
        assert Rows(board)[j][c] == number && SameUnit(r, c, j, c);
        return false;
      }
    }
    // the box
    var column := c / 3;
    var row := r / 3;
    for k := row * 3 to row * 3 + 3
      invariant forall k', l' :: row * 3 <= k' < k && column * 3 <= l' < column * 3 + 3 && board[k', l'] == number ==> (k', l') == (r, c)
    {
      for l := column * 3 to column * 3 + 3
        invariant forall l' :: column * 3 <= l' < l && board[k, l'] == number ==> (k, l') == (r, c)
      {
        if board[k, l] == number && (k, l) != (r, c) {
          assert Rows(board)[k][l] == number && SameUnit(r, c, k, l);
          return false;
        }
      }
    }
    forall i, j | InBounds(i, j) && (i, j) != (r, c) && SameUnit(r, c, i, j)
      ensures Rows(board)[i][j] != number
    {
      if i != r && j != c {
        assert row * 3 <= i < row * 3 + 3 && column * 3 <= j < column * 3 + 3;
      }
    }
    return true;
  }

  /** The backtracking search, in place. It returns true when it has filled
      every empty cell, and false, with the board exactly as it found it,
      when no choice of digits works. The board it leaves on success is the
      one SolveSpec describes, and SolvedGridOutcome says what that is:
      the given cells kept, every empty cell filled with a digit 1..9, and a
      consistent board kept consistent. */
  method Solve(board: array2<int>) returns (solved: bool)
    requires board.Length0 == 9 && board.Length1 == 9
    modifies board
    ensures SolveSpec(old(Rows(board))) == if solved then Some(Rows(board)) else None
    ensures !solved ==> forall i, j :: InBounds(i, j) ==> board[i, j] == old(board[i, j])
    decreases Zeros(Rows(board))
  {
    ghost var g := Rows(board);
    var empty := FindEmptyLocation(board);
    if empty.None? {
      return true;
    }
    var position := empty.value;
    var row, column := position.row, position.col;
    SolveSpecStart(g, position);
    for i := 1 to 10
      invariant forall r, c :: InBounds(r, c) ==> board[r, c] == g[r][c]
      invariant TryFrom(g, position, i) == SolveSpec(g)
    {
      RowsEqual(board, g);
      var valid := ValidSolution(board, position, i);
      TryFromStep(g, position, i);
      if valid {
        ghost var next := Fill(g, position, i);
        board[row, column] := i;
        RowsEqual(board, next);
        solved := Solve(board);
        if solved {
          return true;
        }
        board[row, column] := 0;
      }
    }
    return false;
  }

  /** Runs the search on board and returns that same board, which then
      holds what SolvedGrid gives for the board it held; SolvedGridOutcome
      says what that is. */
  method SolvedBoard(board: array2<int>) returns (result: array2<int>)
    requires board.Length0 == 9 && board.Length1 == 9
    modifies board
    ensures result == board
    ensures Rows(board) == SolvedGrid(old(Rows(board)))
  {
    ghost var g := Rows(board);
    var solved := Solve(board);
    if !solved {
      RowsEqual(board, g);
    }
    return board;
  }
}
