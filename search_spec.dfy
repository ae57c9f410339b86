/**
 * The backtracking search of the solver as functions on board values: the
 * row-major scan for the first empty cell, the count of empty cells that
 * makes the search terminate, and the search itself, together with what it
 * achieves: it finds a solution exactly when one exists, and the solution
 * it finds keeps the given cells.
 */
module SearchSpec {
  import opened Wrappers
  import opened SudokuRules

  /** Cell (i, j) comes strictly before cell (r, c) in row-major order. */
  predicate Before(i: int, j: int, r: int, c: int)
  {
    i < r || (i == r && j < c)
  }

  /** The first empty cell at or after (i, j) in row-major order. */
  function FirstEmptyFrom(g: Grid, i: int, j: int): (r: Option<Pos>)
    requires IsGrid(g) && 0 <= i <= 9 && 0 <= j <= 9
    ensures r.None? ==> forall i', j' :: InBounds(i', j') && !Before(i', j', i, j) ==> g[i'][j'] != 0
    ensures r.Some? ==>
      && InBounds(r.value.row, r.value.col)
      && g[r.value.row][r.value.col] == 0
      && !Before(r.value.row, r.value.col, i, j)
      && forall i', j' :: InBounds(i', j') && !Before(i', j', i, j) && Before(i', j', r.value.row, r.value.col) ==> g[i'][j'] != 0
    decreases 9 - i, 9 - j
  {
    if i == 9 then None
    else if j == 9 then FirstEmptyFrom(g, i + 1, 0)
    else if g[i][j] == 0 then Some(Pos(i, j))
    else FirstEmptyFrom(g, i, j + 1)
  }

  /** The first empty cell of the board in row-major order, or None exactly
      when the board has no empty cell. */
  function FirstEmpty(g: Grid): (r: Option<Pos>)
    requires IsGrid(g)
    ensures r.None? <==> NoEmptyCell(g)
    ensures r.Some? ==>
      && InBounds(r.value.row, r.value.col)
      && g[r.value.row][r.value.col] == 0
      && forall i, j :: InBounds(i, j) && Before(i, j, r.value.row, r.value.col) ==> g[i][j] != 0
  {
    FirstEmptyFrom(g, 0, 0)
  }

  /** At most one cell is the first empty one. */
  lemma FirstEmptyUnique(g: Grid, p: Pos)
    requires IsGrid(g) && InBounds(p.row, p.col) && g[p.row][p.col] == 0
    requires forall i, j :: InBounds(i, j) && Before(i, j, p.row, p.col) ==> g[i][j] != 0
    ensures FirstEmpty(g) == Some(p)
  {
    var q := FirstEmpty(g).value;
    assert !Before(q.row, q.col, p.row, p.col);
    assert !Before(p.row, p.col, q.row, q.col);
  }

  // ---------------------------------------------------------------------
  // The number of empty cells, which every tentative write decreases.

  function CountZeros(row: seq<int>): nat
  {
    if row == [] then 0 else (if row[0] == 0 then 1 else 0) + CountZeros(row[1..])
  }

  function Zeros(g: Grid): nat
  {
    if g == [] then 0 else CountZeros(g[0]) + Zeros(g[1..])
  }

  lemma {:induction false} CountZerosUpdate(row: seq<int>, c: int, d: int)
    requires 0 <= c < |row| && row[c] == 0 && d != 0
    ensures CountZeros(row[c := d]) + 1 == CountZeros(row)
    decreases |row|
  {
    if c == 0 {
      assert row[c := d][1..] == row[1..];
    } else {
      assert row[c := d][1..] == row[1..][c - 1 := d];
      CountZerosUpdate(row[1..], c - 1, d);
    }
  }

  lemma {:induction false} ZerosUpdate(g: Grid, r: int, c: int, d: int)
    requires 0 <= r < |g| && 0 <= c < |g[r]| && g[r][c] == 0 && d != 0
    ensures Zeros(g[r := g[r][c := d]]) + 1 == Zeros(g)
    decreases |g|
  {
    if r == 0 {
      assert g[r := g[r][c := d]][1..] == g[1..];
      CountZerosUpdate(g[0], c, d);
    } else {
      assert g[r := g[r][c := d]][1..] == g[1..][r - 1 := g[1..][r - 1][c := d]];
      ZerosUpdate(g[1..], r - 1, c, d);
    }
  }

  /** Writing a digit into an empty cell leaves one empty cell fewer. */
  lemma ZerosFill(g: Grid, p: Pos, d: int)
    requires IsGrid(g) && InBounds(p.row, p.col) && g[p.row][p.col] == 0 && d != 0
    ensures Zeros(Fill(g, p, d)) + 1 == Zeros(g)
  {
    ZerosUpdate(g, p.row, p.col, d);
  }

  // ---------------------------------------------------------------------
  // The search.

  /** The board that the backtracking search produces from g, or None when
      it fails: it fills the first empty cell with the first digit 1..9
      that does not conflict and from which the search of the rest
      succeeds. */
  ghost function SolveSpec(g: Grid): Option<Grid>
    requires IsGrid(g)
    decreases Zeros(g), 1, 0
  {
    match FirstEmpty(g)
    case None => Some(g)
    case Some(p) => TryFrom(g, p, 1)
  }

  /** Digit d can be placed in the empty cell p and the search of the
      resulting board succeeds. */
  ghost predicate Viable(g: Grid, p: Pos, d: int)
    requires IsGrid(g) && InBounds(p.row, p.col) && g[p.row][p.col] == 0 && 1 <= d <= 9
    decreases Zeros(g), 0, 0
  {
    ZerosFill(g, p, d);
    !Conflicts(g, p.row, p.col, d) && SolveSpec(Fill(g, p, d)).Some?
  }

  /** The search of the empty cell p trying candidates d, d + 1, ..., 9. */
  ghost function TryFrom(g: Grid, p: Pos, d: int): Option<Grid>
    requires IsGrid(g) && InBounds(p.row, p.col) && g[p.row][p.col] == 0 && 1 <= d <= 10
    decreases Zeros(g), 0, 10 - d
  {
    if d == 10 then None
    else if Viable(g, p, d) then (ZerosFill(g, p, d); SolveSpec(Fill(g, p, d)))
    else TryFrom(g, p, d + 1)
  }

  /** One step of the search at cell p: either candidate d is kept or the
      search moves on to d + 1. */
  lemma TryFromStep(g: Grid, p: Pos, d: int)
    requires IsGrid(g) && InBounds(p.row, p.col) && g[p.row][p.col] == 0 && 1 <= d <= 9
    ensures Zeros(Fill(g, p, d)) < Zeros(g)
    ensures TryFrom(g, p, d) ==
      if !Conflicts(g, p.row, p.col, d) && SolveSpec(Fill(g, p, d)).Some? then SolveSpec(Fill(g, p, d))
      else TryFrom(g, p, d + 1)
  {
    ZerosFill(g, p, d);
  }

  /** The search of a board with an empty cell is the search of its first
      empty cell from candidate 1. */
  lemma SolveSpecStart(g: Grid, p: Pos)
    requires IsGrid(g) && FirstEmpty(g) == Some(p)
    ensures SolveSpec(g) == TryFrom(g, p, 1)
  {
  }

  /** What the solver leaves in the board: the solution it found, or the
      board unchanged when it found none. */
  ghost function SolvedGrid(g: Grid): Grid
    requires IsGrid(g)
  {
    if SolveSpec(g).Some? then SolveSpec(g).value else g
  }

  // ---------------------------------------------------------------------
  // Soundness.

  /** Board s completes board g: it keeps every given cell of g and fills
      every empty cell of g with a digit 1..9. */
  ghost predicate Completes(s: Grid, g: Grid)
    requires IsGrid(g)
  {
    && IsGrid(s)
    && Agrees(s, g)
    && forall i, j :: InBounds(i, j) && g[i][j] == 0 ==> 1 <= s[i][j] <= 9
  }

  lemma {:induction false} SolveSpecSound(g: Grid)
    requires IsGrid(g)
    ensures SolveSpec(g).Some? ==> Completes(SolveSpec(g).value, g) && NoEmptyCell(SolveSpec(g).value)
    ensures SolveSpec(g).Some? && Consistent(g) ==> Consistent(SolveSpec(g).value)
    decreases Zeros(g), 1, 0
  {
    match FirstEmpty(g)
    case None =>
    case Some(p) => TryFromSound(g, p, 1);
  }

  lemma {:induction false} TryFromSound(g: Grid, p: Pos, d: int)
    requires IsGrid(g) && InBounds(p.row, p.col) && g[p.row][p.col] == 0 && 1 <= d <= 10
    ensures TryFrom(g, p, d).Some? ==> Completes(TryFrom(g, p, d).value, g) && NoEmptyCell(TryFrom(g, p, d).value)
    ensures TryFrom(g, p, d).Some? && Consistent(g) ==> Consistent(TryFrom(g, p, d).value)
    decreases Zeros(g), 0, 10 - d
  {
    if d < 10 {
      if Viable(g, p, d) {
        var g' := Fill(g, p, d);
        ZerosFill(g, p, d);
        SolveSpecSound(g');
        if Consistent(g) {
          FillConsistent(g, p, d);
        }
      } else {
        TryFromSound(g, p, d + 1);
      }
    }
  }

  /** What a search outcome says about the board h left behind, when it is
      the search's result on success and g itself on failure. */
  lemma SearchOutcome(g: Grid, h: Grid, solved: bool)
    requires IsGrid(g) && IsGrid(h)
    requires SolveSpec(g) == (if solved then Some(h) else None)
    requires !solved ==> h == g
    ensures Agrees(h, g)
    ensures solved ==> Completes(h, g) && NoEmptyCell(h)
    ensures NoEmptyCell(g) ==> solved && h == g
    ensures Consistent(g) ==> Consistent(h)
  {
    SolveSpecSound(g);
  }

  /** What the solver leaves in a board: it keeps the given cells; it
      leaves no empty cell exactly when the search succeeds, and otherwise
      leaves the board unchanged; a full board is left as it is; a
      consistent board stays consistent; and solving again changes
      nothing. */
  lemma SolvedGridOutcome(g: Grid)
    requires IsGrid(g)
    ensures IsGrid(SolvedGrid(g)) && Agrees(SolvedGrid(g), g)
    ensures NoEmptyCell(SolvedGrid(g)) <==> SolveSpec(g).Some?
    ensures SolveSpec(g).None? ==> SolvedGrid(g) == g
    ensures NoEmptyCell(g) ==> SolvedGrid(g) == g
    ensures Consistent(g) ==> Consistent(SolvedGrid(g))
    ensures SolvedGrid(SolvedGrid(g)) == SolvedGrid(g)
  {
    var solved := SolveSpec(g).Some?;
    var h := SolvedGrid(g);
    SolveSpecSound(g);
    SearchOutcome(g, h, solved);
    if solved {
      assert FirstEmpty(h).None?;
    } else {
      assert FirstEmpty(g).Some?;
    }
  }

  // ---------------------------------------------------------------------
  // Completeness.

  /** A solution keeping the given cells of g has no conflict on g. */
  lemma AgreesNoConflict(s: Grid, g: Grid, r: int, c: int)
    requires IsSolution(s) && IsGrid(g) && Agrees(s, g) && InBounds(r, c)
    ensures !Conflicts(g, r, c, s[r][c])
  {
    assert !Conflicts(s, r, c, s[r][c]);
    forall i, j | InBounds(i, j) && (i, j) != (r, c) && SameUnit(r, c, i, j)
      ensures g[i][j] != s[r][c]
    {
      assert s[i][j] != s[r][c];
    }
  }

  lemma {:induction false} SolveSpecComplete(g: Grid, s: Grid)
    requires IsGrid(g) && IsSolution(s) && Agrees(s, g)
    ensures SolveSpec(g).Some?
    decreases Zeros(g), 1, 0
  {
    match FirstEmpty(g)
    case None =>
    case Some(p) => TryFromComplete(g, p, 1, s);
  }

  /** A solution that keeps g's given cells and holds a digit >= d in cell p
      is never missed by the search from candidate d on. */
  lemma {:induction false} TryFromComplete(g: Grid, p: Pos, d: int, s: Grid)
    requires IsGrid(g) && InBounds(p.row, p.col) && g[p.row][p.col] == 0 && 1 <= d <= 10
    requires IsSolution(s) && Agrees(s, g) && d <= s[p.row][p.col]
    ensures TryFrom(g, p, d).Some?
    decreases Zeros(g), 0, 10 - d
  {
    if s[p.row][p.col] == d {
      AgreesNoConflict(s, g, p.row, p.col);
      ZerosFill(g, p, d);
      SolveSpecComplete(Fill(g, p, d), s);
    } else {
      TryFromComplete(g, p, d + 1, s);
    }
  }

  /** The search fails only on a board that has no solution keeping its
      given cells. */
  lemma SearchFailsOnlyWithoutSolution(g: Grid)
    requires IsGrid(g)
    ensures SolveSpec(g).None? ==> forall s :: IsSolution(s) ==> !Agrees(s, g)
  {
    forall s | IsSolution(s) && Agrees(s, g) ensures SolveSpec(g).Some? {
      SolveSpecComplete(g, s);
    }
  }

  /** On a consistent board of digits 0..9 the search succeeds exactly
      when a solution keeping the given cells exists, and what it finds is
      such a solution. */
  lemma SearchDecides(g: Grid)
    requires IsGrid(g) && InRange(g) && Consistent(g)
    ensures SolveSpec(g).Some? <==> exists s :: IsSolution(s) && Agrees(s, g)
    ensures SolveSpec(g).Some? ==> IsSolution(SolveSpec(g).value) && Agrees(SolveSpec(g).value, g)
  {
    SolveSpecSound(g);
    SearchFailsOnlyWithoutSolution(g);
    if SolveSpec(g).Some? {
      var s := SolveSpec(g).value;
      assert forall i, j :: InBounds(i, j) ==> 1 <= s[i][j] <= 9;
      assert IsSolution(s);
    }
  }

  /** When the search succeeds on a consistent board of digits 0..9, every
      row, column and box of the board it leaves holds each digit 1..9
      exactly once. */
  lemma SolvedUnits(g: Grid)
    requires IsGrid(g) && InRange(g) && Consistent(g) && SolveSpec(g).Some?
    ensures IsGrid(SolvedGrid(g)) && NoEmptyCell(SolvedGrid(g))
    ensures var s := SolvedGrid(g);
      forall n :: 0 <= n < 9 ==> EachDigitOnce(s[n]) && EachDigitOnce(Column(s, n)) && EachDigitOnce(Box(s, n))
  {
    SolveSpecSound(g);
    var s := SolvedGrid(g);
    assert forall i, j :: InBounds(i, j) ==> 1 <= s[i][j] <= 9;
    SolutionUnits(s);
  }

  // ---------------------------------------------------------------------
  // Search order.

  /** The smallest viable candidate among d..9, or 10 when there is none. */
  ghost function FirstViable(g: Grid, p: Pos, d: int): (e: int)
    requires IsGrid(g) && InBounds(p.row, p.col) && g[p.row][p.col] == 0 && 1 <= d <= 10
    ensures d <= e <= 10
    ensures e < 10 ==> Viable(g, p, e)
    ensures forall e' :: d <= e' < e ==> !Viable(g, p, e')
    decreases 10 - d
  {
    if d == 10 then 10
    else if Viable(g, p, d) then d
    else FirstViable(g, p, d + 1)
  }

  /** Trying candidates d..9 keeps the result of the smallest viable
      candidate and fails when none is viable: later candidates are never
      tried. */
  lemma {:induction false} TryFromFirstViable(g: Grid, p: Pos, d: int)
    requires IsGrid(g) && InBounds(p.row, p.col) && g[p.row][p.col] == 0 && 1 <= d <= 10
    ensures var e := FirstViable(g, p, d);
      TryFrom(g, p, d) == if e == 10 then None else SolveSpec(Fill(g, p, e))
    decreases 10 - d
  {
    if d < 10 && !Viable(g, p, d) {
      TryFromFirstViable(g, p, d + 1);
    }
  }

  /** The search fills the first empty cell with the smallest digit from
      which it can complete the board and keeps that completion; it fails
      when no digit is viable there. */
  lemma SearchKeepsFirstViableDigit(g: Grid)
    requires IsGrid(g) && FirstEmpty(g).Some?
    ensures var p := FirstEmpty(g).value;
      var e := FirstViable(g, p, 1);
      && SolveSpec(g) == (if e == 10 then None else SolveSpec(Fill(g, p, e)))
      && (e < 10 ==> Viable(g, p, e))
      && forall d :: 1 <= d < e ==> !Viable(g, p, d)
  {
    var p := FirstEmpty(g).value;
    assert SolveSpec(g) == TryFrom(g, p, 1);
    TryFromFirstViable(g, p, 1);
  }
}
