/** The board logic of the game loop, on values: the empty board, the guard
    that decides a move, the scan for full rows and the row deletions that
    check_lines performs, the intended line clear that removes every full
    row at once, and the lock write that stamps a piece into the board. */
module Grids {
  import opened Tetrominoes

  /** The game loop's own copy of the board dimensions. */
  const BoardWidth := 10
  const BoardHeight := 20

  /** A board: a list of rows, row 0 at the top; (0, 0, 0) marks an empty cell. */
  type Grid = seq<seq<Color>>

  /** BoardHeight rows of BoardWidth cells: the same board shape as
      `BoardShaped`, which the piece module states with its own constants. */
  predicate WellFormed(g: Grid)
    ensures WellFormed(g) <==> BoardShaped(g)
  {
    |g| == BoardHeight && forall i :: 0 <= i < |g| ==> |g[i]| == BoardWidth
  }

  function EmptyRow(): (row: seq<Color>)
    ensures |row| == BoardWidth
  {
    seq(BoardWidth, _ => Black)
  }

  function EmptyRows(n: nat): (rs: Grid)
    ensures |rs| == n
  {
    seq(n, _ => EmptyRow())
  }

  /** The board the game starts with: BoardHeight rows of BoardWidth empty cells. */
  function CreateBoard(): (g: Grid)
    ensures WellFormed(g)
    ensures forall i, j :: 0 <= i < |g| && 0 <= j < |g[i]| ==> g[i][j] == Black
  {
    EmptyRows(BoardHeight)
  }

  // ---------------------------------------------------------------------------
  // Where a piece may stand

  /** Every filled cell of shape, anchored at (px, py), is on the board. */
  predicate Inside(shape: Shape, px: int, py: int) {
    forall r, c :: 0 <= r < |shape| && 0 <= c < |shape[r]| && Filled(shape[r][c]) ==>
      0 <= px + c < BoardWidth && 0 <= py + r < BoardHeight
  }

  /** Every filled cell of shape, anchored at (px, py), lies on an empty board cell. */
  predicate OnEmpty(g: Grid, shape: Shape, px: int, py: int)
    requires WellFormed(g) && Inside(shape, px, py)
  {
    forall r, c :: 0 <= r < |shape| && 0 <= c < |shape[r]| && Filled(shape[r][c]) ==>
      g[py + r][px + c] == Black
  }

  /** What always holds of the falling piece: a rectangle with at least one
      column, not above the top row, with its filled cells on the board. */
  predicate Placed(shape: Shape, px: int, py: int) {
    Rectangular(shape) && |shape[0]| > 0 && py >= 0 && Inside(shape, px, py)
  }

  /** The bounding-box test of a move: the anchor keeps the whole rectangle
      of width |shape[0]| and height |shape| on the board. */
  predicate BoxFits(shape: Shape, nx: int, ny: int)
    requires |shape| > 0
    ensures BoxFits(shape, nx, ny) <==>
      0 <= nx && nx + |shape[0]| <= BoardWidth && 0 <= ny && ny + |shape| <= BoardHeight
  {
    0 <= nx < BoardWidth - |shape[0]| + 1 && 0 <= ny < BoardHeight - |shape| + 1
  }

  /** The per-cell test of a move for a filled cell that would land on column
      col, row row; the board is read only once row and column are in range. */
  predicate MoveCellBlocked(g: Grid, col: int, row: int)
    requires WellFormed(g) && row >= 0
    ensures MoveCellBlocked(g, col, row) <==> !RotationCellOk(g, col, row)
  {
    row >= BoardHeight || col < 0 || col >= BoardWidth || g[row][col] != Black
  }

  /** The guard of a move to anchor (nx, ny): the box test, then the test of
      every filled cell. */
  predicate MoveAllowed(g: Grid, shape: Shape, nx: int, ny: int)
    requires WellFormed(g) && |shape| > 0
    ensures MoveAllowed(g, shape, nx, ny) ==> 0 <= nx && 0 <= ny && ny + |shape| <= BoardHeight
  {
    && BoxFits(shape, nx, ny)
    && forall r, c :: 0 <= r < |shape| && 0 <= c < |shape[r]| && Filled(shape[r][c]) ==>
         !MoveCellBlocked(g, nx + c, ny + r)
  }

  /** A move that is allowed puts every filled cell on an empty board cell. */
  lemma MoveAllowedPlaces(g: Grid, shape: Shape, nx: int, ny: int)
    requires WellFormed(g) && |shape| > 0
    requires MoveAllowed(g, shape, nx, ny)
    ensures ny >= 0 && Inside(shape, nx, ny) && OnEmpty(g, shape, nx, ny)
  {
  }

  /** For a tight shape the box test adds nothing: a move is allowed exactly
      when every filled cell lands on an empty board cell. */
  lemma MoveAllowedTight(g: Grid, shape: Shape, nx: int, ny: int)
    requires WellFormed(g) && Tight(shape)
    ensures MoveAllowed(g, shape, nx, ny) <==> Inside(shape, nx, ny) && OnEmpty(g, shape, nx, ny)
  {
    if Inside(shape, nx, ny) {
      var last, right := |shape| - 1, |shape[0]| - 1;
      var c0 :| 0 <= c0 < |shape[0]| && Filled(shape[0][c0]);
      var c1 :| 0 <= c1 < |shape[last]| && Filled(shape[last][c1]);
      var r0 :| 0 <= r0 < |shape| && 0 <= 0 < |shape[r0]| && Filled(shape[r0][0]);
      var r1 :| 0 <= r1 < |shape| && 0 <= right < |shape[r1]| && Filled(shape[r1][right]);
      assert ny >= 0 && ny + last < BoardHeight;
      assert nx >= 0 && nx + right < BoardWidth;
      assert BoxFits(shape, nx, ny);
    }
  }

  /** A rotation that passes the rotation check keeps the piece placed. */
  lemma RotationKeepsPlaced(g: Grid, shape: Shape, px: int, py: int)
    requires WellFormed(g) && Placed(shape, px, py)
    requires RotationFits(RotateCW(shape), g, px, py)
    ensures Placed(RotateCW(shape), px, py)
  {
    RotateRectangular(shape);
  }

  /** Every piece the tables produce starts placed at (5, 0). */
  lemma SpawnPlaced(k: Kind)
    ensures Placed(Shapes(k), 5, 0)
  {
    TableShapes(k);
  }

  // ---------------------------------------------------------------------------
  // check_lines as written

  predicate IsFull(row: seq<Color>) {
    forall j :: 0 <= j < |row| ==> row[j] != Black
  }

  /** The indices of the full rows, in ascending order. */
  function FullRows(g: Grid): (rs: seq<nat>)
    ensures forall k :: 0 <= k < |rs| ==> rs[k] < |g| && IsFull(g[rs[k]])
    ensures forall a, b :: 0 <= a < b < |rs| ==> rs[a] < rs[b]
  {
    if g == [] then []
    else FullRows(g[..|g| - 1]) + (if IsFull(g[|g| - 1]) then [|g| - 1] else [])
  }

  /** The scan misses no full row. */
  lemma {:induction false} FullRowsComplete(g: Grid, i: nat)
    requires i < |g| && IsFull(g[i])
    ensures i in FullRows(g)
    decreases |g|
  {
    if i < |g| - 1 {
      FullRowsComplete(g[..|g| - 1], i);
    }
  }

  /** The outcome of check_lines: the rows it leaves, and whether a deletion
      raised IndexError (the rows are then those left after the deletions
      made before it). */
  datatype LinesOutcome = LinesOutcome(rows: Grid, indexError: bool)

  /** `del g[i]` on a list of rows: one row fewer. */
  function RemoveRow(g: Grid, i: nat): (r: Grid)
    requires i < |g|
    ensures |r| == |g| - 1
  {
    seq(|g| - 1, j requires 0 <= j < |g| - 1 => if j < i then g[j] else g[j + 1])
  }

  /** `del g[i]`: the rows before i followed by the rows after it. */
  lemma RemoveRowSlices(g: Grid, i: nat)
    requires i < |g|
    ensures RemoveRow(g, i) == g[..i] + g[i + 1..]
  {
    var r, d := RemoveRow(g, i), g[..i] + g[i + 1..];
    forall j | 0 <= j < |r| ensures r[j] == d[j] {
      if j >= i {
        assert d[j] == g[i + 1..][j - i];
      }
    }
  }

  /** Deletes the rows at the given indices one after the other, each index
      taken as it was computed before any deletion; an index past the end of
      what remains raises IndexError and stops the deletions. */
  function DeleteEach(g: Grid, lines: seq<nat>): (d: LinesOutcome)
    ensures |d.rows| <= |g|
    ensures !d.indexError ==> |d.rows| + |lines| == |g|
    decreases |lines|
  {
    if lines == [] then LinesOutcome(g, false)
    else if lines[0] < |g| then DeleteEach(RemoveRow(g, lines[0]), lines[1..])
    else LinesOutcome(g, true)
  }

  /** The effect of check_lines as written: scan, delete with stale
      indices, then put one empty row on top per full row found. */
  function CheckLinesEffect(g: Grid): (out: LinesOutcome)
    ensures !out.indexError ==> |out.rows| == |g|
  {
    var lines := FullRows(g);
    var d := DeleteEach(g, lines);
    if d.indexError then d else LinesOutcome(EmptyRows(|lines|) + d.rows, false)
  }

  /** With at most one full row check_lines raises nothing: the first
      deletion is always in range. */
  lemma CheckLinesFewRowsNoError(g: Grid)
    requires |FullRows(g)| <= 1
    ensures !CheckLinesEffect(g).indexError
  {
    var lines := FullRows(g);
    if |lines| == 1 {
      assert lines[1..] == [];
      assert DeleteEach(g, lines) == DeleteEach(RemoveRow(g, lines[0]), []);
    }
  }

  /** Deletions that raise nothing remove one row per index and leave only
      rows of the original board. */
  lemma {:induction false} DeleteEachRows(g: Grid, lines: seq<nat>)
    requires !DeleteEach(g, lines).indexError
    ensures |DeleteEach(g, lines).rows| == |g| - |lines|
    ensures forall row :: row in DeleteEach(g, lines).rows ==> row in g
    decreases |lines|
  {
    if lines != [] {
      var h := RemoveRow(g, lines[0]);
      DeleteEachRows(h, lines[1..]);
      forall row | row in h ensures row in g {
        var k :| 0 <= k < |h| && h[k] == row;
        if k < lines[0] { assert row == g[k]; } else { assert row == g[k + 1]; }
      }
    }
  }

  /** When check_lines raises nothing, the board keeps BoardHeight rows of
      BoardWidth cells. */
  lemma CheckLinesKeepsShape(g: Grid)
    requires WellFormed(g) && !CheckLinesEffect(g).indexError
    ensures WellFormed(CheckLinesEffect(g).rows)
  {
    var lines := FullRows(g);
    DeleteEachRows(g, lines);
    var d := DeleteEach(g, lines).rows;
    var out := CheckLinesEffect(g).rows;
    assert out == EmptyRows(|lines|) + d;
    forall i | 0 <= i < |out| ensures |out[i]| == BoardWidth {
      if i >= |lines| {
        assert out[i] == d[i - |lines|] && out[i] in d;
      }
    }
  }

  /** With no full row, check_lines leaves the board as it was. */
  lemma CheckLinesNoFullRow(g: Grid)
    requires forall i :: 0 <= i < |g| ==> !IsFull(g[i])
    ensures CheckLinesEffect(g) == LinesOutcome(g, false)
  {
    FullRowsNone(g);
    assert EmptyRows(0) + g == g;
  }

  lemma FullRowsNone(g: Grid)
    requires forall i :: 0 <= i < |g| ==> !IsFull(g[i])
    ensures FullRows(g) == []
  {
  }

  /** If the full rows are exactly those of i and j that lie on the board,
      the scan finds i and then j. */
  lemma {:induction false} FullRowsExactly(g: Grid, i: nat, j: nat)
    requires i <= j
    requires forall k :: 0 <= k < |g| ==> (IsFull(g[k]) <==> k == i || k == j)
    ensures FullRows(g) == (if i < |g| then [i] else []) + (if i < j < |g| then [j] else [])
    decreases |g|
  {
    if g != [] {
      var g' := g[..|g| - 1];
      assert forall k :: 0 <= k < |g'| ==> g'[k] == g[k];
      FullRowsExactly(g', i, j);
    }
  }

  /** With exactly one full row k, check_lines opens one empty row at the top,
      moves rows 0 to k-1 down one place and leaves the rows below k alone. */
  lemma CheckLinesOneFullRow(g: Grid, k: nat)
    requires WellFormed(g) && k < |g| && IsFull(g[k])
    requires forall i :: 0 <= i < |g| && i != k ==> !IsFull(g[i])
    ensures !CheckLinesEffect(g).indexError
    ensures WellFormed(CheckLinesEffect(g).rows)
    ensures CheckLinesEffect(g).rows[0] == EmptyRow()
    ensures forall i :: 1 <= i <= k ==> CheckLinesEffect(g).rows[i] == g[i - 1]
    ensures forall i :: k < i < |g| ==> CheckLinesEffect(g).rows[i] == g[i]
  {
    assert FullRows(g) == [k] by {
      assert forall i :: 0 <= i < |g| ==> (IsFull(g[i]) <==> i == k || i == k);
      FullRowsExactly(g, k, k);
    }
    CheckLinesOneFullRowEffect(g, k);
    EmptyRowOnTop(g, k);
  }

  /** When the scan finds row k alone, check_lines deletes row k and inserts
      one empty row on top. */
  lemma CheckLinesOneFullRowEffect(g: Grid, k: nat)
    requires FullRows(g) == [k]
    ensures CheckLinesEffect(g) == LinesOutcome([EmptyRow()] + RemoveRow(g, k), false)
  {
    assert [k][0] == k && [k][1..] == [];
    assert DeleteEach(g, [k]) == LinesOutcome(RemoveRow(g, k), false);
    assert EmptyRows(1) == [EmptyRow()];
  }

  /** An empty row on top of a board with row k removed: rows above k move
      down by one, rows below k stay, and the board keeps its shape. */
  lemma EmptyRowOnTop(g: Grid, k: nat)
    requires WellFormed(g) && k < |g|
    ensures WellFormed([EmptyRow()] + RemoveRow(g, k))
    ensures forall i :: 1 <= i <= k ==> ([EmptyRow()] + RemoveRow(g, k))[i] == g[i - 1]
    ensures forall i :: k < i < |g| ==> ([EmptyRow()] + RemoveRow(g, k))[i] == g[i]
  {
    var r := RemoveRow(g, k);
    var out := [EmptyRow()] + r;
    forall i | 1 <= i < |out| ensures out[i] == r[i - 1] {
    }
  }

  /** With exactly two full rows i < j, the second deletion uses the stale
      index j: on the bottom row it raises IndexError, and otherwise it
      deletes the row that was below j, so the full row j survives. */
  lemma CheckLinesTwoFullRows(g: Grid, i: nat, j: nat)
    requires WellFormed(g) && i < j < |g| && IsFull(g[i]) && IsFull(g[j])
    requires forall k :: 0 <= k < |g| && k != i && k != j ==> !IsFull(g[k])
    ensures CheckLinesEffect(g).indexError <==> j == |g| - 1
    ensures j < |g| - 1 ==>
      CheckLinesEffect(g).rows == EmptyRows(2) + g[..i] + g[i + 1..j + 1] + g[j + 2..]
    ensures j < |g| - 1 ==> IsFull(CheckLinesEffect(g).rows[j + 1])
  {
    assert FullRows(g) == [i, j] by {
      assert forall k :: 0 <= k < |g| ==> (IsFull(g[k]) <==> k == i || k == j);
      FullRowsExactly(g, i, j);
    }
    var h := RemoveRow(g, i);
    assert [i, j][1..] == [j] && [j][1..] == [];
    assert DeleteEach(g, [i, j]) == DeleteEach(h, [j]);
    if j < |g| - 1 {
      var d := g[..i] + g[i + 1..j + 1] + g[j + 2..];
      RemoveTwoRows(g, i, j);
      assert DeleteEach(h, [j]) == LinesOutcome(d, false);
      var out := EmptyRows(2) + d;
      assert CheckLinesEffect(g) == LinesOutcome(out, false);
      assert out[j + 1] == g[j];
    } else {
      assert DeleteEach(h, [j]) == LinesOutcome(h, true);
    }
  }

  /** Deleting row i and then, in what is left, index j removes the original
      rows i and j + 1. */
  lemma RemoveTwoRows(g: Grid, i: nat, j: nat)
    requires i < j < |g| - 1
    ensures RemoveRow(RemoveRow(g, i), j) == g[..i] + g[i + 1..j + 1] + g[j + 2..]
  {
    var r, d := RemoveRow(RemoveRow(g, i), j), g[..i] + g[i + 1..j + 1] + g[j + 2..];
    forall m | 0 <= m < |r| ensures r[m] == d[m] {
      if m < i {
        assert d[m] == g[m];
      } else if m < j {
        assert d[m] == g[i + 1..j + 1][m - i];
      } else {
        assert d[m] == g[j + 2..][m - j];
      }
    }
  }

  /** A board whose full rows are exactly the bottom two. */
  function BottomTwoRowsFull(): (g: Grid)
    ensures WellFormed(g)
  {
    EmptyRows(BoardHeight - 2) + [FullRow(), FullRow()]
  }

  /** A row of BoardWidth cells of one non-empty colour. */
  function FullRow(): (row: seq<Color>)
    ensures |row| == BoardWidth && IsFull(row)
  {
    seq(BoardWidth, _ => Colors(I))
  }

  /** On that board check_lines raises IndexError: after row 18 is deleted
      only 19 rows remain, and the stale index 19 is past the end. */
  lemma BottomTwoRowsRaise()
    ensures CheckLinesEffect(BottomTwoRowsFull()).indexError
  {
    var g := BottomTwoRowsFull();
    forall k | 0 <= k < |g| && k != 18 && k != 19 ensures !IsFull(g[k]) {
      assert g[k][0] == Black;
    }
    CheckLinesTwoFullRows(g, 18, 19);
  }

  // ---------------------------------------------------------------------------
  // The intended line clear

  /** The rows that are not full, in their original order. */
  function Kept(g: Grid): (rs: Grid)
    ensures |rs| <= |g|
    ensures forall k :: 0 <= k < |rs| ==> !IsFull(rs[k])
  {
    if g == [] then []
    else Kept(g[..|g| - 1]) + (if IsFull(g[|g| - 1]) then [] else [g[|g| - 1]])
  }

  /** All full rows removed at once, as many empty rows put on top, and the
      remaining rows kept in their order. */
  function Compact(g: Grid): (c: Grid)
    ensures |c| == |g|
  {
    EmptyRows(|g| - |Kept(g)|) + Kept(g)
  }

  lemma {:induction false} KeptNoFull(a: Grid)
    requires forall k :: 0 <= k < |a| ==> !IsFull(a[k])
    ensures Kept(a) == a
    decreases |a|
  {
    if a != [] {
      KeptNoFull(a[..|a| - 1]);
      assert a[..|a| - 1] + [a[|a| - 1]] == a;
    }
  }

  /** Every row the clear leaves out is a full one: the numbers of kept and
      of full rows add up to the height. */
  lemma {:induction false} KeptCount(g: Grid)
    ensures |Kept(g)| + |FullRows(g)| == |g|
    decreases |g|
  {
    if g != [] {
      KeptCount(g[..|g| - 1]);
    }
  }

  /** Kept rows come from the board, so they have its row width. */
  lemma {:induction false} KeptWidth(g: Grid, w: nat)
    requires forall i :: 0 <= i < |g| ==> |g[i]| == w
    ensures forall k :: 0 <= k < |Kept(g)| ==> |Kept(g)[k]| == w
    decreases |g|
  {
    if g != [] {
      KeptWidth(g[..|g| - 1], w);
    }
  }

  /** The intended clear keeps the board shape, leaves no full row, removes
      exactly as many rows as are full, and keeps the other rows in order
      at the bottom. */
  lemma CompactSpec(g: Grid)
    requires WellFormed(g)
    ensures WellFormed(Compact(g))
    ensures forall i :: 0 <= i < |g| ==> !IsFull(Compact(g)[i])
    ensures |g| - |Kept(g)| == |FullRows(g)|
    ensures Compact(g)[|FullRows(g)|..] == Kept(g)
    ensures forall i :: 0 <= i < |FullRows(g)| ==> Compact(g)[i] == EmptyRow()
  {
    KeptCount(g);
    KeptWidth(g, BoardWidth);
    var c := Compact(g);
    var n := |g| - |Kept(g)|;
    forall i | 0 <= i < |g| ensures |c[i]| == BoardWidth && !IsFull(c[i]) {
      if i < n {
        assert c[i] == EmptyRow() && c[i][0] == Black;
      } else {
        assert c[i] == Kept(g)[i - n];
      }
    }
  }

  /** A second clear right after the first changes nothing. */
  lemma CompactIdempotent(g: Grid)
    requires WellFormed(g)
    ensures Compact(Compact(g)) == Compact(g)
  {
    CompactSpec(g);
    var c := Compact(g);
    KeptNoFull(c);
  }

  /** While at most one row is full, check_lines as written does what the
      intended clear does. */
  lemma CheckLinesAgreesWithCompact(g: Grid)
    requires WellFormed(g) && |FullRows(g)| <= 1
    ensures CheckLinesEffect(g) == LinesOutcome(Compact(g), false)
  {
    var lines := FullRows(g);
    if lines == [] {
      forall i | 0 <= i < |g| ensures !IsFull(g[i]) {
        if IsFull(g[i]) { FullRowsComplete(g, i); }
      }
      CheckLinesNoFullRow(g);
      KeptNoFull(g);
      assert EmptyRows(0) + g == g;
    } else {
      var k := lines[0];
      forall i | 0 <= i < |g| && i != k ensures !IsFull(g[i]) {
        if IsFull(g[i]) { FullRowsComplete(g, i); }
      }
      CompactOneFullRow(g, k);
    }
  }

  /** With two or more full rows, check_lines as written never does what
      the intended clear does: it raises IndexError, or the second full row
      survives one row lower than it was. */
  lemma CheckLinesDisagrees(g: Grid)
    requires WellFormed(g) && |FullRows(g)| >= 2
    ensures CheckLinesEffect(g) != LinesOutcome(Compact(g), false)
  {
    var lines := FullRows(g);
    var out := CheckLinesEffect(g);
    if !out.indexError {
      var j := lines[1];
      var h := RemoveRow(g, lines[0]);
      assert DeleteEach(g, lines) == DeleteEach(h, lines[1..]);
      assert h[j - 1] == g[j];
      DeleteEachKeepsPrefix(h, lines[1..], j, j - 1);
      var d := DeleteEach(h, lines[1..]).rows;
      assert out.rows == EmptyRows(|lines|) + d;
      assert out.rows[|lines| + j - 1] == g[j];
      CompactSpec(g);
      assert !IsFull(Compact(g)[|lines| + j - 1]);
    }
  }

  /** Deletions at indices no lower than m leave every row above m where it
      was. */
  lemma {:induction false} DeleteEachKeepsPrefix(g: Grid, lines: seq<nat>, m: nat, p: nat)
    requires p < m <= |g|
    requires forall a :: 0 <= a < |lines| ==> lines[a] >= m
    ensures p < |DeleteEach(g, lines).rows| && DeleteEach(g, lines).rows[p] == g[p]
    decreases |lines|
  {
    if lines != [] && lines[0] < |g| {
      var h := RemoveRow(g, lines[0]);
      assert h[p] == g[p];
      DeleteEachKeepsPrefix(h, lines[1..], m, p);
    }
  }

  /** check_lines as written agrees with the intended clear exactly when at
      most one row is full. */
  lemma CheckLinesCorrectIff(g: Grid)
    requires WellFormed(g)
    ensures CheckLinesEffect(g) == LinesOutcome(Compact(g), false) <==> |FullRows(g)| <= 1
  {
    if |FullRows(g)| <= 1 {
      CheckLinesAgreesWithCompact(g);
    } else {
      CheckLinesDisagrees(g);
    }
  }

  /** With exactly one full row k, check_lines as written and the intended
      clear give the same board. */
  lemma CompactOneFullRow(g: Grid, k: nat)
    requires WellFormed(g) && k < |g| && IsFull(g[k])
    requires forall i :: 0 <= i < |g| && i != k ==> !IsFull(g[i])
    ensures CheckLinesEffect(g) == LinesOutcome(Compact(g), false)
  {
    CheckLinesOneFullRow(g, k);
    KeptOneFull(g, k);
    var out, kept := CheckLinesEffect(g).rows, Kept(g);
    var c := EmptyRows(1) + kept;
    assert Compact(g) == c;
    forall i | 0 <= i < |g| ensures out[i] == c[i] {
      if i == 0 {
      } else if i <= k {
        assert c[i] == kept[i - 1] == g[i - 1];
      } else {
        assert c[i] == kept[i - 1] == g[i];
      }
    }
    assert out == c;
  }

  /** With exactly one full row k, the kept rows are the others: rows above
      k keep their index and rows below it move up by one. */
  lemma {:induction false} KeptOneFull(g: Grid, k: nat)
    requires k < |g| && IsFull(g[k])
    requires forall i :: 0 <= i < |g| && i != k ==> !IsFull(g[i])
    ensures |Kept(g)| == |g| - 1
    ensures forall i :: 0 <= i < k ==> Kept(g)[i] == g[i]
    ensures forall i :: k <= i < |g| - 1 ==> Kept(g)[i] == g[i + 1]
    decreases |g|
  {
    var init := g[..|g| - 1];
    if k == |g| - 1 {
      KeptNoFull(init);
    } else {
      KeptOneFull(init, k);
    }
  }

  // ---------------------------------------------------------------------------
  // The lock write

  /** Board cell (i, j) lies under a filled cell of shape anchored at (px, py). */
  predicate Covers(shape: Shape, px: int, py: int, i: int, j: int) {
    0 <= i - py < |shape| && 0 <= j - px < |shape[i - py]| && Filled(shape[i - py][j - px])
  }

  /** The board after writing color into every cell under a filled shape cell. */
  function Stamped(g: Grid, shape: Shape, px: int, py: int, color: Color): (s: Grid)
    ensures |s| == |g| && forall i :: 0 <= i < |g| ==> |s[i]| == |g[i]|
  {
    seq(|g|, i requires 0 <= i < |g| =>
      seq(|g[i]|, j requires 0 <= j < |g[i]| =>
        if Covers(shape, px, py, i, j) then color else g[i][j]))
  }

  /** The lock write puts the colour on the board cell under every filled
      shape cell, leaves every other cell as it was, keeps the board shape,
      and with a colour other than the empty marker never empties a cell. */
  lemma StampedSpec(g: Grid, shape: Shape, px: int, py: int, color: Color)
    requires WellFormed(g) && Inside(shape, px, py)
    ensures WellFormed(Stamped(g, shape, px, py, color))
    ensures forall r, c :: 0 <= r < |shape| && 0 <= c < |shape[r]| && Filled(shape[r][c]) ==>
      Stamped(g, shape, px, py, color)[py + r][px + c] == color
    ensures forall i, j :: 0 <= i < |g| && 0 <= j < |g[i]| && !Covers(shape, px, py, i, j) ==>
      Stamped(g, shape, px, py, color)[i][j] == g[i][j]
    ensures color != Black ==> forall i, j :: 0 <= i < |g| && 0 <= j < |g[i]| && g[i][j] != Black ==>
      Stamped(g, shape, px, py, color)[i][j] != Black
  {
    var s := Stamped(g, shape, px, py, color);
    forall r, c | 0 <= r < |shape| && 0 <= c < |shape[r]| && Filled(shape[r][c])
      ensures s[py + r][px + c] == color
    {
      assert Covers(shape, px, py, py + r, px + c);
    }
  }
}
