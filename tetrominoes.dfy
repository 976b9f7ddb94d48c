/** Pieces of the falling-block game: their shapes, colours, the clockwise
    rotation and the Tetromino object that carries a shape, a colour and an
    anchor on the board. */
module Tetrominoes {

  /** An RGB triple. The board marks an empty cell with (0, 0, 0). */
  datatype Color = RGB(r: int, g: int, b: int)

  const Black := RGB(0, 0, 0)

  /** This file's own copy of the board dimensions, used by the rotation check. */
  const BoardWidth := 10
  const BoardHeight := 20

  /** A shape is a matrix of cells; a cell is filled when it is non-zero. */
  type Shape = seq<seq<int>>

  predicate Filled(cell: int) {
    cell != 0
  }

  /** What the rotation loop needs in order to read shape[r][c] for every
      c below the width of row 0: a first row, and no row shorter than it. */
  predicate RowsCoverFirst(s: Shape) {
    |s| > 0 && forall r :: 0 <= r < |s| ==> |s[0]| <= |s[r]|
  }

  predicate Rectangular(s: Shape) {
    |s| > 0 && forall r :: 0 <= r < |s| ==> |s[r]| == |s[0]|
  }

  /** The clockwise quarter turn: a rows x cols matrix becomes cols x rows,
      with rotated[c][rows - 1 - r] taking the value of shape[r][c]. */
  function RotateCW(s: Shape): (q: Shape)
    requires RowsCoverFirst(s)
    ensures |q| == |s[0]|
    ensures forall c :: 0 <= c < |q| ==> |q[c]| == |s|
    ensures forall r, c :: 0 <= r < |s| && 0 <= c < |s[0]| ==> q[c][|s| - 1 - r] == s[r][c]
  {
    seq(|s[0]|, c requires 0 <= c < |s[0]| =>
      seq(|s|, j requires 0 <= j < |s| => s[|s| - 1 - j][c]))
  }

  /** Number of filled cells in a row and in a shape. */
  function RowCount(row: seq<int>): nat {
    if row == [] then 0 else (if Filled(row[0]) then 1 else 0) + RowCount(row[1..])
  }

  function FilledCount(s: Shape): nat {
    if s == [] then 0 else RowCount(s[0]) + FilledCount(s[1..])
  }

  // ---------------------------------------------------------------------------
  // The piece tables

  datatype Kind = I | O | T | S | Z | J | L

  /** The SHAPES table: every entry is a rectangle with at least one column. */
  function Shapes(k: Kind): (s: Shape)
    ensures Rectangular(s) && |s[0]| > 0
  {
    match k
    case I => [[1, 1, 1, 1]]
    case O => [[1, 1], [1, 1]]
    case T => [[1, 1, 1], [0, 1, 0]]
    case S => [[0, 1, 1], [1, 1, 0]]
    case Z => [[1, 1, 0], [0, 1, 1]]
    case J => [[1, 0, 0], [1, 1, 1]]
    case L => [[0, 0, 1], [1, 1, 1]]
  }

  /** The COLORS table: no piece has the colour of an empty cell. */
  function Colors(k: Kind): (c: Color)
    ensures c != Black
  {
    match k
    case S => RGB(15, 127, 0)
    case J => RGB(150, 186, 220)
    case Z => RGB(60, 114, 201)
    case L => RGB(127, 63, 255)
    case O => RGB(170, 17, 17)
    case I => RGB(255, 127, 63)
    case T => RGB(255, 255, 127)
  }

  /** A shape whose bounding box is tight: every border row and border
      column of the rectangle holds a filled cell. */
  predicate Tight(s: Shape) {
    && Rectangular(s)
    && |s[0]| > 0
    && RowHasFilled(s[0])
    && RowHasFilled(s[|s| - 1])
    && ColumnHasFilled(s, 0)
    && ColumnHasFilled(s, |s[0]| - 1)
  }

  predicate RowHasFilled(row: seq<int>) {
    exists c :: 0 <= c < |row| && Filled(row[c])
  }

  predicate ColumnHasFilled(s: Shape, c: int) {
    exists r :: 0 <= r < |s| && 0 <= c < |s[r]| && Filled(s[r][c])
  }

  /** Every table shape is a tight rectangle of one or two rows and at most
      four columns, and every table colour differs from the empty marker. */
  lemma TableShapes(k: Kind)
    ensures Rectangular(Shapes(k)) && Tight(Shapes(k))
    ensures 1 <= |Shapes(k)| <= 2 && 1 <= |Shapes(k)[0]| <= 4
    ensures Colors(k) != Black
  {
    var s := Shapes(k);
    var last, right := |s| - 1, |s[0]| - 1;
    match k
    case I => assert Filled(s[0][0]) && Filled(s[0][right]);
    case O => assert Filled(s[0][0]) && Filled(s[last][right]);
    case T => assert Filled(s[0][0]) && Filled(s[0][right]) && Filled(s[last][1]);
    case S => assert Filled(s[0][1]) && Filled(s[last][0]) && Filled(s[0][right]);
    case Z => assert Filled(s[0][0]) && Filled(s[last][1]) && Filled(s[last][right]);
    case J => assert Filled(s[0][0]) && Filled(s[last][0]) && Filled(s[last][right]);
    case L => assert Filled(s[0][right]) && Filled(s[last][0]) && Filled(s[last][right]);
  }

  /** Every table shape has exactly four filled cells. */
  lemma TableCounts(k: Kind)
    ensures FilledCount(Shapes(k)) == 4
  {
    match k
    case I =>
      CountOneRow([1, 1, 1, 1]);
      CountFour(1, 1, 1, 1);
    case O =>
      CountTwoRows([1, 1], [1, 1]);
      CountTwo(1, 1);
    case T =>
      CountTwoRows([1, 1, 1], [0, 1, 0]);
      CountThree(1, 1, 1);
      CountThree(0, 1, 0);
    case S =>
      CountTwoRows([0, 1, 1], [1, 1, 0]);
      CountThree(0, 1, 1);
      CountThree(1, 1, 0);
    case Z =>
      CountTwoRows([1, 1, 0], [0, 1, 1]);
      CountThree(1, 1, 0);
      CountThree(0, 1, 1);
    case J =>
      CountTwoRows([1, 0, 0], [1, 1, 1]);
      CountThree(1, 0, 0);
      CountThree(1, 1, 1);
    case L =>
      CountTwoRows([0, 0, 1], [1, 1, 1]);
      CountThree(0, 0, 1);
      CountThree(1, 1, 1);
  }

  /** 1 for a filled cell, 0 for an empty one. */
  function Bit(v: int): nat {
    if Filled(v) then 1 else 0
  }

  lemma CountOne(a: int)
    ensures RowCount([a]) == Bit(a)
  {
    assert [a][1..] == [];
  }

  lemma CountTwo(a: int, b: int)
    ensures RowCount([a, b]) == Bit(a) + Bit(b)
  {
    assert [a, b][1..] == [b];
    CountOne(b);
  }

  lemma CountThree(a: int, b: int, c: int)
    ensures RowCount([a, b, c]) == Bit(a) + Bit(b) + Bit(c)
  {
    assert [a, b, c][1..] == [b, c];
    CountTwo(b, c);
  }

  lemma CountFour(a: int, b: int, c: int, d: int)
    ensures RowCount([a, b, c, d]) == Bit(a) + Bit(b) + Bit(c) + Bit(d)
  {
    assert [a, b, c, d][1..] == [b, c, d];
    CountThree(b, c, d);
  }

  lemma CountOneRow(r0: seq<int>)
    ensures FilledCount([r0]) == RowCount(r0)
  {
    assert [r0][1..] == [];
  }

  lemma CountTwoRows(r0: seq<int>, r1: seq<int>)
    ensures FilledCount([r0, r1]) == RowCount(r0) + RowCount(r1)
  {
    assert [r0, r1][1..] == [r1];
    CountOneRow(r1);
  }

  // ---------------------------------------------------------------------------
  // Rotation geometry

  /** The 'O' shape is its own quarter turn. */
  lemma ORotatesToItself()
    ensures RotateCW(Shapes(O)) == Shapes(O)
  {
    var q := RotateCW(Shapes(O));
    assert q[0] == [1, 1] && q[1] == [1, 1];
  }

  /** A quarter turn of a rectangle with at least one column is again such a
      rectangle, with rows and columns swapped. */
  lemma RotateRectangular(s: Shape)
    requires Rectangular(s) && |s[0]| > 0
    ensures Rectangular(RotateCW(s)) && |RotateCW(s)[0]| == |s|
    ensures |RotateCW(s)| == |s[0]|
  {
  }

  /** The half turn: cell (i, j) of a rows x cols rectangle goes to
      (rows-1-i, cols-1-j). */
  function HalfTurn(s: Shape): (h: Shape)
    requires Rectangular(s)
    ensures Rectangular(h) && |h| == |s| && |h[0]| == |s[0]|
    ensures forall i, j :: 0 <= i < |s| && 0 <= j < |s[0]| ==> h[i][j] == s[|s| - 1 - i][|s[0]| - 1 - j]
  {
    seq(|s|, i requires 0 <= i < |s| =>
      seq(|s[0]|, j requires 0 <= j < |s[0]| => s[|s| - 1 - i][|s[0]| - 1 - j]))
  }

  /** Two quarter turns make a half turn. */
  lemma RotateTwice(s: Shape)
    requires Rectangular(s) && |s[0]| > 0
    ensures Rectangular(RotateCW(s)) && |RotateCW(s)[0]| > 0
    ensures RotateCW(RotateCW(s)) == HalfTurn(s)
  {
    RotateRectangular(s);
    var p := RotateCW(s);
    RotateRectangular(p);
    var q, h := RotateCW(p), HalfTurn(s);
    forall i | 0 <= i < |s| ensures q[i] == h[i] {
      forall j | 0 <= j < |s[0]| ensures q[i][j] == h[i][j] {
        assert q[i][|p| - 1 - (|p| - 1 - j)] == p[|p| - 1 - j][i];
        assert p[|p| - 1 - j][|s| - 1 - (|s| - 1 - i)] == s[|s| - 1 - i][|p| - 1 - j];
      }
    }
  }

  /** A half turn undoes itself. */
  lemma HalfTurnTwice(s: Shape)
    requires Rectangular(s)
    ensures HalfTurn(HalfTurn(s)) == s
  {
    var h := HalfTurn(s);
    var q := HalfTurn(h);
    forall i | 0 <= i < |s| ensures q[i] == s[i] {
      forall j | 0 <= j < |s[i]| ensures q[i][j] == s[i][j] {
        assert q[i][j] == h[|s| - 1 - i][|s[0]| - 1 - j];
      }
    }
  }

  /** Four quarter turns give back the original rectangle exactly. */
  lemma {:induction false} RotateFourTimes(s: Shape)
    requires Rectangular(s) && |s[0]| > 0
    ensures RotateCW(RotateCW(RotateCW(RotateCW(s)))) == s
  {
    RotateTwice(s);
    var h := HalfTurn(s);
    RotateTwice(h);
    HalfTurnTwice(s);
  }

  // Helpers for counting the cells of a rotated shape.

  /** The quarter turn of the first `cols` columns of s, defined for any
      number of rows (including none). */
  ghost function Turn(s: Shape, cols: nat): (q: Shape)
    requires forall r :: 0 <= r < |s| ==> cols <= |s[r]|
    ensures |q| == cols && forall c :: 0 <= c < cols ==> |q[c]| == |s|
  {
    seq(cols, c requires 0 <= c < cols =>
      seq(|s|, j requires 0 <= j < |s| => s[|s| - 1 - j][c]))
  }

  /** Appends col[c] to row c of m. */
  ghost function AppendColumn(m: Shape, col: seq<int>): (q: Shape)
    requires |m| == |col|
    ensures |q| == |m|
  {
    seq(|m|, c requires 0 <= c < |m| => m[c] + [col[c]])
  }

  lemma {:induction false} RowCountAppend(a: seq<int>, v: int)
    ensures RowCount(a + [v]) == RowCount(a) + (if Filled(v) then 1 else 0)
  {
    if a != [] {
      assert (a + [v])[1..] == a[1..] + [v];
      RowCountAppend(a[1..], v);
    }
  }

  lemma {:induction false} AppendColumnCount(m: Shape, col: seq<int>)
    requires |m| == |col|
    ensures FilledCount(AppendColumn(m, col)) == FilledCount(m) + RowCount(col)
  {
    if m != [] {
      var q := AppendColumn(m, col);
      assert q[1..] == AppendColumn(m[1..], col[1..]);
      RowCountAppend(m[0], col[0]);
      AppendColumnCount(m[1..], col[1..]);
    }
  }

  /** n rows of no cells: the quarter turn of a shape with no rows. */
  ghost function NoCells(n: nat): (q: Shape)
    ensures |q| == n
  {
    seq(n, _ => [])
  }

  lemma {:induction false} NoCellsCount(n: nat)
    ensures FilledCount(NoCells(n)) == 0
  {
    if n > 0 {
      assert NoCells(n)[1..] == NoCells(n - 1);
      NoCellsCount(n - 1);
    }
  }

  lemma {:induction false} TurnCount(s: Shape, cols: nat)
    requires forall r :: 0 <= r < |s| ==> |s[r]| == cols
    ensures FilledCount(Turn(s, cols)) == FilledCount(s)
  {
    if s == [] {
      assert Turn(s, cols) == NoCells(cols);
      NoCellsCount(cols);
    } else {
      var t, u := Turn(s, cols), Turn(s[1..], cols);
      forall c | 0 <= c < cols ensures t[c] == u[c] + [s[0][c]] {
        assert |t[c]| == |u[c] + [s[0][c]]|;
        forall j | 0 <= j < |s| ensures t[c][j] == (u[c] + [s[0][c]])[j] {
          if j < |s| - 1 {
            assert u[c][j] == s[1..][|s| - 2 - j][c];
          }
        }
      }
      assert t == AppendColumn(u, s[0]);
      AppendColumnCount(Turn(s[1..], cols), s[0]);
      TurnCount(s[1..], cols);
    }
  }

  /** A quarter turn keeps the number of filled cells. */
  lemma RotationPreservesCount(s: Shape)
    requires Rectangular(s)
    ensures FilledCount(RotateCW(s)) == FilledCount(s)
  {
    assert RotateCW(s) == Turn(s, |s[0]|);
    TurnCount(s, |s[0]|);
  }

  // ---------------------------------------------------------------------------
  // Rotation against the board

  /** The board shape the rotation check indexes: BoardHeight rows of
      BoardWidth cells. */
  predicate BoardShaped(board: seq<seq<Color>>) {
    |board| == BoardHeight && forall i :: 0 <= i < |board| ==> |board[i]| == BoardWidth
  }

  /** The rotation check for one filled cell at board column col, row row: the
      column is on the board, the row is above the floor, and a row that is
      not above the top holds an empty cell. */
  predicate RotationCellOk(board: seq<seq<Color>>, col: int, row: int)
    requires BoardShaped(board)
    ensures RotationCellOk(board, col, row) ==> 0 <= col < BoardWidth && row < BoardHeight
  {
    0 <= col < BoardWidth && row < BoardHeight && (row >= 0 ==> board[row][col] == Black)
  }

  /** Every filled cell of q, anchored at (px, py), passes the rotation check. */
  predicate RotationFits(q: Shape, board: seq<seq<Color>>, px: int, py: int)
    requires BoardShaped(board)
    ensures RotationFits(q, board, px, py) ==>
      forall r, c :: 0 <= r < |q| && 0 <= c < |q[r]| && Filled(q[r][c]) ==>
        0 <= px + c < BoardWidth && py + r < BoardHeight
  {
    forall r, c :: 0 <= r < |q| && 0 <= c < |q[r]| && Filled(q[r][c]) ==>
      RotationCellOk(board, px + c, py + r)
  }

  /** A piece: its current shape, its colour and the board position of the
      top-left corner of its shape. */
  class Tetromino {
    var shape: Shape
    var color: Color
    var x: int
    var y: int

    constructor (shape: Shape, color: Color)
      ensures this.shape == shape && this.color == color
      ensures x == 5 && y == 0
    {
      this.shape := shape;
      this.color := color;
      x := 5;
      y := 0;
    }

    /** Turns the piece clockwise in place when every filled cell of the
        turned shape passes the rotation check; otherwise restores the saved
        shape and position and reports failure. */
    method Rotate(board: seq<seq<Color>>) returns (ok: bool)
      requires RowsCoverFirst(shape)
      requires BoardShaped(board)
      modifies this`shape, this`x, this`y
      ensures x == old(x) && y == old(y)
      ensures ok == RotationFits(RotateCW(old(shape)), board, x, y)
      ensures shape == if ok then RotateCW(old(shape)) else old(shape)
    {
      var originalShape := shape;
      var originalX, originalY := x, y;
      var rotated := RotatedMatrix(shape);
      var fits := CheckRotated(rotated, board, x, y);
      if !fits {
        shape := originalShape;
        x, y := originalX, originalY;
        return false;
      }
      shape := rotated;
      return true;
    }
  }

  /** Fills a cols x rows matrix of zeros cell by cell with
      rotated[c][rows - 1 - r] := shape[r][c]. */
  method RotatedMatrix(shape: Shape) returns (rotated: Shape)
    requires RowsCoverFirst(shape)
    ensures rotated == RotateCW(shape)
  {
    var rows := |shape|;
    var cols := |shape[0]|;
    rotated := seq(cols, _ => seq(rows, _ => 0));
    var r := 0;
    while r < rows
      invariant 0 <= r <= rows
      invariant |rotated| == cols && forall c :: 0 <= c < cols ==> |rotated[c]| == rows
      invariant forall r', c :: 0 <= r' < r && 0 <= c < cols ==> rotated[c][rows - 1 - r'] == shape[r'][c]
    {
      var c := 0;
      while c < cols
        invariant 0 <= c <= cols
        invariant |rotated| == cols && forall c' :: 0 <= c' < cols ==> |rotated[c']| == rows
        invariant forall r', c' :: 0 <= r' < r && 0 <= c' < cols ==> rotated[c'][rows - 1 - r'] == shape[r'][c']
        invariant forall c' :: 0 <= c' < c ==> rotated[c'][rows - 1 - r] == shape[r][c']
      {
        rotated := rotated[c := rotated[c][rows - 1 - r := shape[r][c]]];
        c := c + 1;
      }
      r := r + 1;
    }
    var q := RotateCW(shape);
    forall c | 0 <= c < cols ensures rotated[c] == q[c] {
      forall j | 0 <= j < rows ensures rotated[c][j] == q[c][j] {
        var r' := rows - 1 - j;
        assert rotated[c][rows - 1 - r'] == shape[r'][c];
      }
    }
  }

  /** Walks the filled cells of a turned shape anchored at (px, py) and stops
      at the first one that fails the rotation check. */
  method CheckRotated(rotated: Shape, board: seq<seq<Color>>, px: int, py: int) returns (fits: bool)
    requires BoardShaped(board)
    ensures fits == RotationFits(rotated, board, px, py)
  {
    var ry := 0;
    while ry < |rotated|
      invariant 0 <= ry <= |rotated|
      invariant forall r, c :: 0 <= r < ry && 0 <= c < |rotated[r]| && Filled(rotated[r][c]) ==>
        RotationCellOk(board, px + c, py + r)
    {
      var row := rotated[ry];
      var rx := 0;
      while rx < |row|
        invariant 0 <= rx <= |row|
        invariant forall c :: 0 <= c < rx && Filled(row[c]) ==> RotationCellOk(board, px + c, py + ry)
      {
        if Filled(row[rx]) {
          var newX := px + rx;
          var newY := py + ry;
          if newX < 0 || newX >= BoardWidth || newY >= BoardHeight || (newY >= 0 && board[newY][newX] != Black) {
            return false;
          }
        }
        rx := rx + 1;
      }
      ry := ry + 1;
    }
    return true;
  }

  /** A new piece of kind k: the table shape and colour of that same kind,
      anchored at (5, 0). */
  method GenerateTetromino(k: Kind) returns (t: Tetromino)
    ensures fresh(t)
    ensures t.shape == Shapes(k) && t.color == Colors(k)
    ensures t.x == 5 && t.y == 0
  {
    t := new Tetromino(Shapes(k), Colors(k));
  }
}
