# DecentFit falling-block core, modelled in Dafny

DecentFit is a small falling-block game. The board is 10 columns by 20
rows. Each cell holds an RGB colour, and black `(0, 0, 0)` means empty. A
piece (a tetromino) has a 0/1 shape matrix, a colour and a top-left
position. It spawns at column 5, row 0. The left and right keys shift it by
one column. Gravity moves it down by one row. When that move is refused,
the piece is written into the board and full rows are cleared. A new piece
of a random kind then spawns.

The project has three modules:

- `Tetrominoes` (`tetrominoes.dfy`): the `Tetromino` class, the kind
  tables, clockwise rotation as a function (`RotateCW`), and the rotate
  method with its collision check. The properties proved are:
  - four quarter turns give back the original shape;
  - a turn keeps the number of filled cells;
  - the O piece rotates to itself;
  - every table entry is a tight, rectangular four-cell shape.
- `Grids` (`grids.dfy`): pure functions on the board value.
  - Board creation.
  - The move test, both as written and as a cell-level placement property.
  - The full-row scan.
  - What `check_lines` does as written.
  - The intended line clear (`Compact`).
  - The lock write (`Stamped`).
- `Game` (`game.dfy`): the board as a mutable object (`Board`) and the
  loop's operations on it as methods, each proved against the `Grids`
  functions:
  - `MoveTetromino`;
  - `CheckLines`, as written;
  - `ClearLines`, the corrected clear;
  - `LockPiece`;
  - `GravityStep`, one step of the falling branch of the main loop.

Shape cells are integers, and a cell is filled when it is non-zero (the
truth test the game uses). Colours are `RGB(r, g, b)` values and `Black`
is the empty cell. Both source files declare `BOARD_WIDTH = 10` and
`BOARD_HEIGHT = 20`, so both `Tetrominoes` and `Grids` declare them too.

## Model

| member | source | states |
|---|---|---|
| Grids.CreateBoard | game.py:14-15 | the new board is 20 rows of 10 cells, all black |
| Game.Board.constructor | game.py:14-15 | a new board object holds `CreateBoard()` |
| Tetrominoes.Tetromino.constructor | tetrominoes.py:12-22 | a piece keeps the given shape and colour and starts at x = 5, y = 0 |
| Tetrominoes.RotateCW | tetrominoes.py:31-37 | the turned matrix is cols × rows, and cell (r, c) of the original lands at (c, rows-1-r) |
| Tetrominoes.RotatedMatrix | tetrominoes.py:31-37 | the nested loops that fill `rotated` compute exactly `RotateCW(shape)` |
| Tetrominoes.CheckRotated | tetrominoes.py:40-47 | the collision loop answers true iff every filled cell of the turned shape is inside columns 0..9, above row 20, and on black whenever its row is non-negative |
| Tetrominoes.Tetromino.Rotate | tetrominoes.py:24-55 | on success the shape becomes `RotateCW` of the old one; on failure the old shape stays; the position never changes; the result is the collision test on the turned shape |
| Tetrominoes.RotateRectangular | tetrominoes.py:31-37 | turning an r × c shape with c > 0 gives a rectangular c × r shape |
| Tetrominoes.RotateTwice | tetrominoes.py:31-37 | two turns of a rectangle are the half turn, which maps cell (i, j) to (rows-1-i, cols-1-j) |
| Tetrominoes.HalfTurnTwice | tetrominoes.py:31-37 | a half turn undoes itself |
| Tetrominoes.RotateFourTimes | tetrominoes.py:31-37 | four turns of any non-empty rectangular shape give back the shape itself |
| Tetrominoes.RotationPreservesCount | tetrominoes.py:31-37 | a turn keeps the number of filled cells |
| Tetrominoes.TurnCount | tetrominoes.py:35-37 | the column-by-column turned matrix has as many filled cells as the original |
| Tetrominoes.AppendColumnCount | tetrominoes.py:35-37 | adding one column adds that column's filled cells to the count |
| Tetrominoes.RowCountAppend | tetrominoes.py:35-37 | appending a cell adds one to a row's count exactly when the cell is filled |
| Tetrominoes.NoCellsCount | tetrominoes.py:35-37 | the turn of a shape with no rows (n rows of no cells) has no filled cell |
| Tetrominoes.RotationCellOk | tetrominoes.py:45-47 | the rotation test for one filled cell; a cell that passes is in columns 0..9 and above row 20 (a row above the top is not read) |
| Tetrominoes.RotationFits | tetrominoes.py:40-47 | the rotation test over every filled cell of the turned shape; when it passes, every filled cell is in columns 0..9 and above row 20 |
| Tetrominoes.Shapes | tetrominoes.py:58-66 | the SHAPES table, kind by kind; every entry is a rectangle with at least one column |
| Tetrominoes.Colors | tetrominoes.py:68-76 | the COLORS table, kind by kind; no entry is the black of an empty cell |
| Tetrominoes.ORotatesToItself | tetrominoes.py:60 | the O piece turns into itself |
| Tetrominoes.TableShapes | tetrominoes.py:58-76 | every kind's shape is rectangular, tight (no empty border row or column) and 1-2 rows by 1-4 columns, and its colour is not black |
| Tetrominoes.TableCounts | tetrominoes.py:58-66 | every kind's shape has exactly four filled cells |
| Tetrominoes.GenerateTetromino | tetrominoes.py:79-82 | the new piece has the chosen kind's shape and colour from the tables and stands at (5, 0) |
| Grids.WellFormed | game.py:14-15 | a board is 20 rows of 10 cells; this is the same shape as the rotation test's `BoardShaped` |
| Grids.BoxFits | game.py:34 | the bounding-box test of a move holds exactly when the whole width × height rectangle at the new anchor lies on the board |
| Grids.MoveCellBlocked | game.py:40 | the per-cell test of a move refuses a filled cell below the floor, off either side, or on a coloured cell; for rows not above the top it is exactly the negation of the rotation's per-cell test |
| Grids.MoveAllowed | game.py:33-41 | the move guard: the box test, then the per-cell test of every filled cell; an accepted anchor is not left of or above the board and the shape ends above the floor |
| Grids.MoveAllowedPlaces | game.py:29-45 | a position the move test accepts has y ≥ 0, every filled cell inside the board, and every filled cell on black |
| Grids.MoveAllowedTight | game.py:33-41 | for a tight shape the move test accepts exactly the positions where every filled cell is inside the board and on black |
| Grids.RotationKeepsPlaced | tetrominoes.py:39-55 | a turn that passes the collision test on a placed piece leaves a placed piece |
| Grids.SpawnPlaced | tetrominoes.py:19-22 | every kind spawned at (5, 0) lies inside the board |
| Game.MoveTetromino | game.py:29-45 | the method moves the piece to (x+dx, y+dy) exactly when the box test and the per-cell test pass, and otherwise leaves it; an accepted position is inside the board and on empty cells; the board is not written |
| Grids.FullRows | game.py:48 | the scan yields only indices of full rows, in strictly increasing order |
| Grids.FullRowsComplete | game.py:48 | every full row's index is in the scan |
| Grids.FullRowsNone | game.py:48 | a board without full rows yields an empty scan |
| Grids.FullRowsExactly | game.py:48 | when exactly rows i ≤ j are full, the scan is `[i]` or `[i, j]` |
| Grids.RemoveRow | game.py:51 | `del board[line]`: the list has one row fewer |
| Grids.RemoveRowSlices | game.py:51 | removing row i leaves the rows before i followed by the rows after it |
| Grids.RemoveTwoRows | game.py:50-51 | deleting row i and then index j of what is left removes the original rows i and j + 1 |
| Grids.DeleteEach | game.py:50-51 | the deletion loop, each index taken as computed before any deletion, stopping with IndexError at an index past the end; the rows never grow, and without an error one row is gone per index |
| Grids.CheckLinesEffect | game.py:47-54 | check_lines as written: scan, delete, then one empty row on top per full row found; without an error the board keeps its number of rows |
| Grids.CheckLinesFewRowsNoError | game.py:47-54 | with at most one full row check_lines raises nothing, since the first deletion is always in range |
| Grids.DeleteEachRows | game.py:50-51 | deletions by index that do not run past the end remove one row each and introduce no new row |
| Grids.CheckLinesKeepsShape | game.py:47-54 | when no deletion fails, check_lines leaves a 20 × 10 board |
| Grids.CheckLinesNoFullRow | game.py:47-54 | with no full row, check_lines changes nothing |
| Grids.CheckLinesOneFullRow | game.py:47-54 | with exactly one full row k, check_lines removes row k, shifts the rows above down by one and puts an empty row on top |
| Grids.CheckLinesOneFullRowEffect | game.py:47-54 | when the scan finds row k alone, check_lines deletes row k and puts one empty row on top |
| Grids.EmptyRowOnTop | game.py:51-54 | deleting row k and putting an empty row on top keeps a 20 × 10 board, moves the rows above k down by one and leaves the rows below k in place |
| Grids.CheckLinesTwoFullRows | game.py:47-54 | with exactly two full rows i < j, check_lines fails with IndexError iff j is the bottom row, and otherwise removes rows i and j+1 and leaves the full row j on the board |
| Grids.BottomTwoRowsFull | game.py:47-54 | the witness board with its bottom two rows full is a 20 × 10 board |
| Grids.FullRow | game.py:48 | the witness row has ten cells and is full |
| Grids.BottomTwoRowsRaise | game.py:50-51 | check_lines on the witness board deletes past the end of the list |
| Game.DeleteLines | game.py:50-51 | the in-place deletion loop ends with the rows and error flag of `DeleteEach` on the old board and the given indices |
| Game.InsertEmptyRows | game.py:53-54 | the insertion loop puts n empty rows on top of the rows it found |
| Game.CheckLines | game.py:47-54 | the in-place method ends with the rows and error flag of `CheckLinesEffect` on the old board |
| Grids.Kept | game.py:47-54 | the filtered rows are no more than the board's rows and none of them is full |
| Grids.Compact | game.py:47-54 | the intended clear: every full row dropped at once, as many empty rows on top, the other rows in their order below; the board keeps its number of rows |
| Grids.KeptNoFull | game.py:47-54 | a board with no full row is kept unchanged |
| Grids.KeptCount | game.py:48-54 | kept rows plus scanned full rows make up every row, so as many empty rows are inserted as are removed |
| Grids.KeptWidth | game.py:54 | kept rows have the board's width |
| Grids.KeptOneFull | game.py:50-51 | with exactly one full row k, one row fewer is kept: rows above k keep their index and rows below k move up by one |
| Grids.CompactOneFullRow | game.py:47-54 | with exactly one full row, check_lines as written and the intended clear give the same board and no error |
| Grids.CompactSpec | game.py:47-54 | the intended clear leaves a 20 × 10 board with no full row, one empty row on top per removed row, and the surviving rows in their order below |
| Grids.CompactIdempotent | game.py:47-54 | clearing a cleared board changes nothing |
| Grids.CheckLinesAgreesWithCompact | game.py:47-54 | with at most one full row, check_lines as written and the intended clear give the same board and no error |
| Grids.DeleteEachKeepsPrefix | game.py:50-51 | deletions at indices no lower than m leave every row above m at its index |
| Grids.CheckLinesDisagrees | game.py:47-54 | with two or more full rows, check_lines as written never gives the intended clear without an error: either it raises IndexError, or the second full row is still on the board |
| Grids.CheckLinesCorrectIff | game.py:47-54 | check_lines as written agrees with the intended clear, raising nothing, exactly when at most one row is full |
| Game.ClearLines | game.py:47-54 | the in-place corrected clear leaves `Compact` of the old board |
| Grids.Stamped | game.py:75-78 | the lock write on the board value: every cell under a filled shape cell takes the piece's colour; the board keeps its number of rows and each row its width |
| Grids.StampedSpec | game.py:75-78 | the lock write keeps a 20 × 10 board, gives every cell under a filled shape cell the piece's colour, leaves every other cell as it was, and with a non-black colour keeps occupied cells occupied |
| Game.LockPiece | game.py:75-78 | the nested write loop leaves `Stamped` of the old board |
| Game.GravityStep | game.py:73-82 | the piece drops one row exactly when the move test accepts (x, y+1), and then nothing else changes; otherwise the piece is written where it stands, full rows are cleared, and a fresh piece of the next kind spawns at (5, 0); a 20 × 10 board and a placed current piece are preserved |

## Left out

- Drawing (`draw_board`, `draw_tetromino`), the window, the frame clock,
  `pygame.time.wait` and the event loop are left out. They are I/O and
  timing and do not change the board.
- The `falling` flag only inserts a 300 ms pause after a lock, so it has no
  logical effect and is not modelled. `GravityStep` is the body of its
  branch, game.py:73-82.
- The left and right keys (game.py:67-71) are calls of `MoveTetromino` with
  dx = -1 and dx = 1. They have no member of their own.
- `random.choice` in `generate_tetromino` becomes the `Kind` parameter of
  `GenerateTetromino` and the `next` parameter of `GravityStep`.
- The pixel constants `WIDTH`, `HEIGHT`, `SQUARE_SIZE` and `FPS` are not
  modelled.
- The game has no game-over test, wall kick or centred spawn, and the
  model adds none.
- The main loop never calls `rotate`, so `Tetromino.Rotate` is modelled on
  its own.
- Pieces share their shape list with the `SHAPES` table. `rotate`
  replaces the list and never mutates it, so a value `seq` is faithful
  there.
- `Tetromino.Rotate`: requires a non-empty shape whose rows are at least
  as wide as row 0. Other shapes raise IndexError in the source, and the
  tables never produce them.
- `MoveTetromino`: requires a non-empty shape, because the source reads
  `shape[0]`.
- `LockPiece`: requires the piece to be inside the board. In the source a
  negative index would wrap around to the other edge, and a row index of 20
  or more (or a column index of 10 or more) would raise IndexError. Neither
  can happen, since the move test only accepts inside positions and
  `GravityStep` keeps the piece placed.
- `GravityStep`: clears rows with the corrected `ClearLines`, not the
  as-written `CheckLines`. The two agree whenever at most one row is full
  (`CheckLinesAgreesWithCompact`), and only then (`CheckLinesCorrectIff`). The as-written behaviour with two or
  more full rows is described under Findings.

## Findings

| source | as written | input that shows it | evidently intended | confidence | as-written member | corrected member |
|---|---|---|---|---|---|---|
| game.py:50-51 | check_lines deletes the full rows one by one by the indices found before any deletion, so after the first deletion each later index refers to the row one lower than meant | a 20 × 10 board whose rows 18 and 19 are full: the second `del board[19]` runs on a 19-row list and raises IndexError; with full rows i < j < 19, row j+1 is deleted and full row j stays | delete every full row, keep the other rows in order, and insert one empty row on top per deleted row | not executed | Grids.CheckLinesTwoFullRows, Grids.CheckLinesDisagrees, Grids.BottomTwoRowsRaise, Game.CheckLines | Grids.CompactSpec, Game.ClearLines |
