/** The game loop's operations on the shared board and the falling piece:
    the guarded move, check_lines as written, the intended line clear, the
    lock write and the gravity step that ties them together. */
module Game {
  import opened Tetrominoes
  import opened Grids

  /** The board list of the game loop. check_lines and the lock write change
      it in place; the move and the rotation only read it. */
  class Board {
    var rows: Grid

    constructor ()
      ensures rows == CreateBoard()
    {
      rows := CreateBoard();
    }
  }

  /** Moves the piece by (dx, dy) when the box test and the per-cell test
      both pass; otherwise leaves it where it was. The board is never written. */
  method MoveTetromino(tetro: Tetromino, board: Board, dx: int, dy: int) returns (moved: bool)
    requires |tetro.shape| > 0
    requires WellFormed(board.rows)
    modifies tetro`x, tetro`y
    ensures moved == MoveAllowed(board.rows, tetro.shape, old(tetro.x) + dx, old(tetro.y) + dy)
    ensures moved ==> tetro.x == old(tetro.x) + dx && tetro.y == old(tetro.y) + dy
    ensures !moved ==> tetro.x == old(tetro.x) && tetro.y == old(tetro.y)
    ensures moved ==> tetro.y >= 0 && Inside(tetro.shape, tetro.x, tetro.y)
    ensures moved ==> OnEmpty(board.rows, tetro.shape, tetro.x, tetro.y)
  {
    var shape := tetro.shape;
    var newX := tetro.x + dx;
    var newY := tetro.y + dy;

    if !(0 <= newX < Grids.BoardWidth - |shape[0]| + 1) || !(0 <= newY < Grids.BoardHeight - |shape| + 1) {
      return false;
    }

    var y := 0;
    while y < |shape|
      invariant 0 <= y <= |shape|
      invariant forall r, c :: 0 <= r < y && 0 <= c < |shape[r]| && Filled(shape[r][c]) ==>
        !MoveCellBlocked(board.rows, newX + c, newY + r)
    {
      var row := shape[y];
      var x := 0;
      while x < |row|
        invariant 0 <= x <= |row|
        invariant forall c :: 0 <= c < x && Filled(row[c]) ==> !MoveCellBlocked(board.rows, newX + c, newY + y)
      {
        if Filled(row[x]) && (newY + y >= Grids.BoardHeight || newX + x < 0 || newX + x >= Grids.BoardWidth
                              || board.rows[newY + y][newX + x] != Black) {
          return false;
        }
        x := x + 1;
      }
      y := y + 1;
    }

    tetro.x := newX;
    tetro.y := newY;
    MoveAllowedPlaces(board.rows, shape, newX, newY);
    return true;
  }

  /** check_lines as written: collect the full rows, delete them one after
      the other by their original indices, then insert one empty row at the
      top per full row. A deletion past the end raises IndexError, reported
      as indexError, and leaves the rows deleted so far. */
  method CheckLines(board: Board) returns (indexError: bool)
    modifies board
    ensures LinesOutcome(board.rows, indexError) == CheckLinesEffect(old(board.rows))
  {
    var linesToRemove := FullRows(board.rows);
    indexError := DeleteLines(board, linesToRemove);
    if !indexError {
      InsertEmptyRows(board, |linesToRemove|);
    }
  }

  /** The deletion loop of check_lines: `del board[line]` for each index in
      turn, each index taken as computed before any deletion. */
  method DeleteLines(board: Board, lines: seq<nat>) returns (indexError: bool)
    modifies board
    ensures LinesOutcome(board.rows, indexError) == DeleteEach(old(board.rows), lines)
  {
    var i := 0;
    while i < |lines|
      invariant 0 <= i <= |lines|
      invariant DeleteEach(board.rows, lines[i..]) == DeleteEach(old(board.rows), lines)
    {
      var line := lines[i];
      if line >= |board.rows| {
        return true;
      }
      assert lines[i..][1..] == lines[i + 1..];
      RemoveRowSlices(board.rows, line);
      board.rows := board.rows[..line] + board.rows[line + 1..];
      i := i + 1;
    }
    return false;
  }

  /** The insertion loop of check_lines: n times an empty row at index 0. */
  method InsertEmptyRows(board: Board, n: nat)
    modifies board
    ensures board.rows == EmptyRows(n) + old(board.rows)
  {
    var k := 0;
    while k < n
      invariant 0 <= k <= n
      invariant board.rows == EmptyRows(k) + old(board.rows)
    {
      board.rows := [EmptyRow()] + board.rows;
      k := k + 1;
      assert [EmptyRow()] + EmptyRows(k - 1) == EmptyRows(k);
    }
  }

  /** The intended line clear: drop every full row at once, keep the others
      in their order, and put as many empty rows on top. */
  method ClearLines(board: Board)
    requires WellFormed(board.rows)
    modifies board
    ensures board.rows == Compact(old(board.rows))
  {
    var kept: Grid := [];
    var i := 0;
    while i < |board.rows|
      invariant 0 <= i <= |board.rows|
      invariant board.rows == old(board.rows)
      invariant kept == Kept(board.rows[..i])
    {
      assert board.rows[..i + 1][..i] == board.rows[..i];
      if !IsFull(board.rows[i]) {
        kept := kept + [board.rows[i]];
      }
      i := i + 1;
    }
    assert board.rows[..i] == board.rows;
    board.rows := EmptyRows(|board.rows| - |kept|) + kept;
  }

  /** Board cell (i, j) has been written once the lock loop has reached
      shape row r, column c. */
  ghost predicate CoveredBefore(shape: Shape, px: int, py: int, r: int, c: int, i: int, j: int) {
    Covers(shape, px, py, i, j) && (i - py < r || (i - py == r && j - px < c))
  }

  /** The lock write: the piece's colour goes into every board cell under a
      filled cell of its shape. */
  method LockPiece(board: Board, tetro: Tetromino)
    requires WellFormed(board.rows) && Inside(tetro.shape, tetro.x, tetro.y)
    modifies board
    ensures board.rows == Stamped(old(board.rows), tetro.shape, tetro.x, tetro.y, tetro.color)
  {
    var shape, px, py, color := tetro.shape, tetro.x, tetro.y, tetro.color;
    var y := 0;
    while y < |shape|
      invariant 0 <= y <= |shape|
      invariant WellFormed(board.rows)
      invariant forall i, j :: 0 <= i < Grids.BoardHeight && 0 <= j < Grids.BoardWidth ==>
        board.rows[i][j] == if CoveredBefore(shape, px, py, y, 0, i, j) then color else old(board.rows)[i][j]
    {
      var row := shape[y];
      var x := 0;
      while x < |row|
        invariant 0 <= x <= |row|
        invariant WellFormed(board.rows)
        invariant forall i, j :: 0 <= i < Grids.BoardHeight && 0 <= j < Grids.BoardWidth ==>
          board.rows[i][j] == if CoveredBefore(shape, px, py, y, x, i, j) then color else old(board.rows)[i][j]
      {
        if Filled(row[x]) {
          board.rows := board.rows[py + y := board.rows[py + y][px + x := color]];
        }
        x := x + 1;
      }
      y := y + 1;
    }
    ghost var s := Stamped(old(board.rows), shape, px, py, color);
    forall i | 0 <= i < Grids.BoardHeight ensures board.rows[i] == s[i] {
    }
  }

  /** One gravity step of the game loop: try to move the piece one row
      down; if that is refused, lock it where it is, clear the full rows and
      take a new piece of the given kind. */
  method GravityStep(board: Board, tetro: Tetromino, next: Kind) returns (current: Tetromino, locked: bool)
    requires WellFormed(board.rows) && Placed(tetro.shape, tetro.x, tetro.y)
    modifies board, tetro`x, tetro`y
    ensures WellFormed(board.rows) && Placed(current.shape, current.x, current.y)
    ensures locked == !MoveAllowed(old(board.rows), tetro.shape, old(tetro.x), old(tetro.y) + 1)
    ensures !locked ==> current == tetro && board.rows == old(board.rows)
    ensures !locked ==> tetro.x == old(tetro.x) && tetro.y == old(tetro.y) + 1
    ensures locked ==> tetro.x == old(tetro.x) && tetro.y == old(tetro.y)
    ensures locked ==> board.rows == Compact(Stamped(old(board.rows), tetro.shape, tetro.x, tetro.y, tetro.color))
    ensures locked ==> fresh(current) && current.shape == Shapes(next) && current.color == Colors(next)
    ensures locked ==> current.x == 5 && current.y == 0
  {
    var moved := MoveTetromino(tetro, board, 0, 1);
    if moved {
      return tetro, false;
    }
    LockPiece(board, tetro);
    StampedSpec(old(board.rows), tetro.shape, tetro.x, tetro.y, tetro.color);
    ClearLines(board);
    CompactSpec(Stamped(old(board.rows), tetro.shape, tetro.x, tetro.y, tetro.color));
    current := GenerateTetromino(next);
    SpawnPlaced(next);
    return current, true;
  }
}
