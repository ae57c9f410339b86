/**
 * The game logic behind the graphical front end: a game holding the
 * puzzle as loaded and the player's working copy, and a view that turns
 * mouse clicks into a cell selection and key presses into moves. Drawing
 * on the canvas is not modelled; only the state the handlers change is.
 */
module SudokuGUI {
  import opened Wrappers
  import opened SudokuRules
  import opened SearchSpec
  import opened SudokuSolver
  import opened BoardText

  // -------------------------------------------------------------------
  // Geometry of the board on the canvas.

  /** Pixels around the board. */
  const MARGIN: int := 20
  /** Width of every cell. */
  const SIDE: int := 50
  /** Width and height of the whole board. */
  const WIDTH: int := MARGIN * 2 + SIDE * 9
  const HEIGHT: int := WIDTH

  /** Pixel (x, y) lies strictly inside the board's outer frame. */
  predicate OnBoard(x: int, y: int)
  {
    MARGIN < x < WIDTH - MARGIN && MARGIN < y < HEIGHT - MARGIN
  }

  /** Pixel (x, y) lies in the square drawn for cell p: the square's
      top-left corner is included, its bottom and right sides are not. */
  predicate InSquare(p: Pos, x: int, y: int)
  {
    && MARGIN + SIDE * p.row <= y < MARGIN + SIDE * (p.row + 1)
    && MARGIN + SIDE * p.col <= x < MARGIN + SIDE * (p.col + 1)
  }

  /** The cell under a pixel of the board: rows from y, columns from x. */
  function CellAt(x: int, y: int): (p: Pos)
    requires OnBoard(x, y)
    ensures InBounds(p.row, p.col) && InSquare(p, x, y)
  {
    Pos((y - MARGIN) / SIDE, (x - MARGIN) / SIDE)
  }

  /** The squares do not overlap: the cell whose square holds a pixel of
      the board is the one CellAt names. */
  lemma CellAtUnique(x: int, y: int, p: Pos)
    requires OnBoard(x, y) && InSquare(p, x, y)
    ensures p == CellAt(x, y)
  {
    var q := CellAt(x, y);
    assert SIDE * p.row < SIDE * (q.row + 1) && SIDE * q.row < SIDE * (p.row + 1);
    assert SIDE * p.col < SIDE * (q.col + 1) && SIDE * q.col < SIDE * (p.col + 1);
  }

  // -------------------------------------------------------------------
  // Keys.

  /** The characters a key press may write into a cell: "1234567890". */
  const DigitKeys: string := seq(10, i requires 0 <= i < 10 => if i < 9 then ('1' as int + i) as char else '0')

  /** DigitKeys is the text the key handler tests against. */
  lemma DigitKeysText()
    ensures DigitKeys == "1234567890"
  {
  }

  /** key occurs in text starting at index i. */
  predicate OccursAt(key: string, text: string, i: int)
  {
    0 <= i <= |text| - |key| && text[i..i + |key|] == key
  }

  /** key occurs in text as a run of consecutive characters (`key in text`
      on strings; the empty string occurs in every text). */
  function Occurs(key: string, text: string): (b: bool)
    ensures b <==> exists i :: OccursAt(key, text, i)
    decreases |text|
  {
    if |key| > |text| then false
    else if text[..|key|] == key then assert OccursAt(key, text, 0); true
    else
      var b := Occurs(key, text[1..]);
      assert b ==> exists i :: OccursAt(key, text, i) by {
        if b {
          var i :| OccursAt(key, text[1..], i);
          assert text[1..][i..i + |key|] == text[i + 1..i + 1 + |key|];
          assert OccursAt(key, text, i + 1);
        }
      }
      assert (exists i :: OccursAt(key, text, i)) ==> b by {
        if exists i :: OccursAt(key, text, i) {
          var i :| OccursAt(key, text, i);
          assert i != 0;
          assert text[1..][i - 1..i - 1 + |key|] == text[i..i + |key|];
          assert OccursAt(key, text[1..], i - 1);
        }
      }
      b
  }

  /** Every character of a key occurring in a text of digits is a
      digit. */
  lemma OccursInDigits(key: string, text: string)
    requires forall m :: 0 <= m < |text| ==> '0' <= text[m] <= '9'
    requires Occurs(key, text)
    ensures forall k :: 0 <= k < |key| ==> '0' <= key[k] <= '9'
  {
    var i :| OccursAt(key, text, i);
    forall k | 0 <= k < |key| ensures '0' <= key[k] <= '9' {
      assert text[i..i + |key|][k] == text[i + k];
    }
  }

  /** Every character of a key that occurs in DigitKeys is a digit. */
  lemma DigitKeyDigits(key: string)
    requires Occurs(key, DigitKeys)
    ensures forall k :: 0 <= k < |key| ==> '0' <= key[k] <= '9'
  {
    forall m | 0 <= m < |DigitKeys| ensures '0' <= DigitKeys[m] <= '9' {
    }
    OccursInDigits(key, DigitKeys);
  }

  /** A one-character key occurs in a text exactly when its character is
      one of the text's. */
  lemma OccursSingle(c: char, text: string)
    ensures Occurs([c], text) <==> c in text
  {
    if Occurs([c], text) {
      var i :| OccursAt([c], text, i);
      assert text[i..i + 1][0] == text[i];
    }
    if c in text {
      var i :| 0 <= i < |text| && text[i] == c;
      assert text[i..i + 1] == [c];
      assert OccursAt([c], text, i);
    }
  }

  /** A single character passes the key test exactly when it is a digit. */
  lemma SingleKey(c: char)
    ensures Occurs([c], DigitKeys) <==> '0' <= c <= '9'
  {
    OccursSingle(c, DigitKeys);
    if '0' <= c <= '9' {
      var i := if c == '0' then 9 else c as int - '1' as int;
      assert DigitKeys[i] == c;
    }
  }

  /** The number a key that passed the test writes (`int(key)`). */
  function KeyValue(key: string): (n: nat)
    requires Occurs(key, DigitKeys)
    ensures |key| == 1 ==> n == key[0] as int - '0' as int
  {
    DigitKeyDigits(key);
    if |key| == 1 then
      assert key[..0] == [];
      assert DecimalValue(key) == 10 * DecimalValue(key[..0]) + (key[0] as int - '0' as int);
      DecimalValue(key)
    else
      DecimalValue(key)
  }

  // -------------------------------------------------------------------
  // Copies.

  /** A fresh board array holding the cells of g (`copy.deepcopy` of a
      nested list). */
  method DeepCopy(g: Grid) returns (a: array2<int>)
    requires IsGrid(g)
    ensures fresh(a) && a.Length0 == 9 && a.Length1 == 9 && Rows(a) == g
  {
    a := new int[9, 9]((i, j) requires InBounds(i, j) => g[i][j]);
    RowsEqual(a, g);
  }

  /** What the solver makes of a copy of g (`solved_board(copy.deepcopy(g))`);
      g itself is left alone, being a value. */
  method SolvedCopy(g: Grid) returns (s: Grid)
    requires IsGrid(g)
    ensures s == SolvedGrid(g)
  {
    var copy := DeepCopy(g);
    var solved := SolvedBoard(copy);
    s := Rows(solved);
  }

  // -------------------------------------------------------------------
  // The game.

  /** The state of one game: the puzzle as loaded, the player's working
      copy and whether the game is over. */
  class SudokuGame {
    const boardFile: seq<string>
    var startPuzzle: Grid
    var puzzle: Grid
    var gameOver: bool

    predicate Valid()
      reads this
    {
      IsGrid(startPuzzle)
    }

    /** A game over an already parsed board. The working copy is empty
        until Start is called. */
    constructor (boardFile: seq<string>, startPuzzle: Grid)
      requires IsGrid(startPuzzle)
      ensures Valid()
      ensures this.boardFile == boardFile && this.startPuzzle == startPuzzle
      ensures puzzle == [] && !gameOver
    {
      this.boardFile := boardFile;
      this.startPuzzle := startPuzzle;
      puzzle := [];
      gameOver := false;
    }

    /** Loads a game from the lines of a board file; the parser's error
        is passed on when the file is not a board. */
    static method Load(boardFile: seq<string>) returns (r: Result<SudokuGame, SudokuError>)
      ensures r.Err? <==> Parse(boardFile).Err?
      ensures r.Err? ==> r.error == Parse(boardFile).error
      ensures r.Ok? ==>
        && fresh(r.value) && r.value.Valid()
        && r.value.boardFile == boardFile
        && r.value.startPuzzle == Parse(boardFile).value
        && r.value.puzzle == [] && !r.value.gameOver
    {
      var board := CreateBoard(boardFile);
      if board.Err? {
        return Err(board.error);
      }
      var game := new SudokuGame(boardFile, board.value);
      return Ok(game);
    }

    /** Starts, or restarts, play: the working copy becomes the puzzle as
        loaded and the game is not over. */
    method Start()
      requires Valid()
      modifies this
      ensures Valid()
      ensures !gameOver && puzzle == startPuzzle
      ensures startPuzzle == old(startPuzzle)
    {
      gameOver := false;
      puzzle := startPuzzle;
    }

    /** Compares the working copy with what the solver makes of the puzzle
        as loaded; on a match the game is over. */
    method CheckAnswer() returns (correct: bool)
      requires Valid()
      modifies this
      ensures Valid()
      ensures correct <==> puzzle == SolvedGrid(startPuzzle)
      ensures gameOver == (old(gameOver) || correct)
      ensures puzzle == old(puzzle) && startPuzzle == old(startPuzzle)
    {
      var solvedPuzzle := SolvedCopy(startPuzzle);
      if puzzle == solvedPuzzle {
        gameOver := true;
        return true;
      }
      return false;
    }
  }

  // -------------------------------------------------------------------
  // The view.

  /** The handlers of the board view: the selected cell, or (-1, -1) when
      none is selected, and the game they act on. */
  class SudokuGameUI {
    const game: SudokuGame
    var row: int
    var column: int

    predicate Valid()
      reads this, game
    {
      && game.Valid()
      && IsGrid(game.puzzle)
      && ((row, column) == (-1, -1) || InBounds(row, column))
    }

    /** A cell is selected (the test the key handler makes). */
    predicate HasSelection()
      reads this
    {
      row >= 0 && column >= 0
    }

    /** The selected cell, if any, was empty in the puzzle as loaded. */
    predicate SelectionEditable()
      requires Valid()
      reads this, game
    {
      !HasSelection() || game.startPuzzle[row][column] == 0
    }

    /** The view of a started game, with no cell selected. */
    constructor (game: SudokuGame)
      requires game.Valid() && IsGrid(game.puzzle)
      ensures this.game == game
      ensures row == -1 && column == -1
      ensures Valid() && SelectionEditable()
    {
      this.game := game;
      row := -1;
      column := -1;
    }

    /** A click at pixel (x, y). Once the game is over clicks are ignored.
        A click off the board clears the selection; a click on the
        selected cell deselects it; a click on another cell selects it if
        it was empty in the puzzle as loaded, and otherwise changes
        nothing. */
    method CellClicked(x: int, y: int)
      requires Valid()
      modifies this
      ensures Valid()
      ensures old(game.gameOver) ==> row == old(row) && column == old(column)
      ensures !game.gameOver && !OnBoard(x, y) ==> row == -1 && column == -1
      ensures !game.gameOver && OnBoard(x, y) ==>
        var p := CellAt(x, y);
        if (p.row, p.col) == (old(row), old(column)) then row == -1 && column == -1
        else if game.startPuzzle[p.row][p.col] == 0 then row == p.row && column == p.col
        else row == old(row) && column == old(column)
      ensures old(SelectionEditable()) ==> SelectionEditable()
    {
      if game.gameOver {
        return;
      }
      if OnBoard(x, y) {
        var r := (y - MARGIN) / SIDE;
        var c := (x - MARGIN) / SIDE;
        if (r, c) == (row, column) {
          row := -1;
          column := -1;
        } else if game.startPuzzle[r][c] == 0 {
          row := r;
          column := c;
        }
      } else {
        row := -1;
        column := -1;
      }
    }

    /** A key press with character key. Ignored once the game is over,
        with no cell selected, or when key does not occur in DigitKeys.
        The empty key occurs there too, and converting it to a number
        raises: nothing changes and raised is true. Otherwise the number
        is written into the selected cell, the selection is cleared and
        the answer is checked, which ends the game when the working copy
        is the solver's solution. */
    method KeyPressed(key: string) returns (raised: bool)
      requires Valid()
      modifies this, game
      ensures Valid()
      ensures game.startPuzzle == old(game.startPuzzle)
      ensures old(game.gameOver) || !old(HasSelection()) || !Occurs(key, DigitKeys) || key == [] ==>
        && game.puzzle == old(game.puzzle) && game.gameOver == old(game.gameOver)
        && row == old(row) && column == old(column)
      ensures raised <==> !old(game.gameOver) && old(HasSelection()) && key == []
      ensures !old(game.gameOver) && old(HasSelection()) && Occurs(key, DigitKeys) && key != [] ==>
        && game.puzzle == Fill(old(game.puzzle), Pos(old(row), old(column)), KeyValue(key))
        && row == -1 && column == -1
        && (game.gameOver <==> game.puzzle == SolvedGrid(game.startPuzzle))
      ensures old(SelectionEditable()) && old(Agrees(game.puzzle, game.startPuzzle)) ==>
        Agrees(game.puzzle, game.startPuzzle)
    {
      if game.gameOver {
        return false;
      }
      if row >= 0 && column >= 0 && Occurs(key, DigitKeys) {
        if key == [] {
          return true;
        }
        game.puzzle := Fill(game.puzzle, Pos(row, column), KeyValue(key));
        column := -1;
        row := -1;
        var _ := game.CheckAnswer();
      }
      return false;
    }

    /** Clears the player's answers and restarts the game. */
    method ClearAnswers()
      requires Valid()
      modifies game
      ensures Valid()
      ensures !game.gameOver && game.puzzle == game.startPuzzle
      ensures game.startPuzzle == old(game.startPuzzle)
    {
      game.Start();
    }

    /** Ends the game and replaces both the working copy and the puzzle as
        loaded by what the solver makes of the puzzle; the working copy
        then is what CheckAnswer accepts. */
    method ShowAnswers()
      requires Valid()
      modifies game
      ensures Valid()
      ensures game.gameOver
      ensures game.puzzle == SolvedGrid(old(game.startPuzzle))
      ensures game.startPuzzle == SolvedGrid(old(game.startPuzzle))
      ensures game.puzzle == SolvedGrid(game.startPuzzle)
      ensures Agrees(game.puzzle, old(game.startPuzzle))
    {
      SolvedGridOutcome(game.startPuzzle);
      game.gameOver := true;
      game.puzzle := SolvedCopy(game.startPuzzle);
      game.startPuzzle := SolvedCopy(game.startPuzzle);
    }
  }
}
