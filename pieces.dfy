/**
 * The piece catalog of Tetromino.kt: a piece is a matrix of ints (0 is an
 * empty cell) and a colour; rotation is a 90 degree clockwise turn into a
 * freshly built matrix; the catalog holds four pieces, I, O, T and L.
 */
module Pieces {

  /** A piece shape: rows of cells, 0 meaning empty. */
  type Shape = seq<seq<int>>

  datatype Tetromino = Tetromino(shape: Shape, color: int)

  /** Every row has the length of row 0. */
  predicate IsRectangular(s: Shape) {
    forall i :: 0 <= i < |s| ==> |s[i]| == |s[0]|
  }

  /** Some cell of the shape is occupied. */
  predicate HasOccupied(s: Shape) {
    exists i, j :: 0 <= i < |s| && 0 <= j < |s[i]| && s[i][j] != 0
  }

  /** The shapes the engine handles: non-empty rectangles with an occupied cell. */
  predicate WellFormed(s: Shape) {
    |s| > 0 && |s[0]| > 0 && IsRectangular(s) && HasOccupied(s)
  }

  /** `getWidth`: the length of row 0, the width of every row of a rectangle. */
  function Width(s: Shape): (w: nat)
    requires |s| > 0
    ensures IsRectangular(s) ==> forall i :: 0 <= i < |s| ==> |s[i]| == w
  {
    |s[0]|
  }

  /** `getHeight`: the number of rows. */
  function Height(s: Shape): (h: nat)
    ensures h == 0 <==> s == []
    ensures WellFormed(s) ==> h > 0
  {
    |s|
  }

  /** Rotation swaps the dimensions: the new height is the old width and the new width the old height. */
  lemma RotatedDimensions(s: Shape)
    requires |s| > 0 && |s[0]| > 0 && IsRectangular(s)
    ensures Height(Rotated(s)) == Width(s) && Width(Rotated(s)) == Height(s)
  {
  }

  /** What `rotate` needs to index `shape[i][j]` for every `j` below the width of row 0. */
  predicate Rotatable(s: Shape) {
    |s| > 0 && forall i :: 0 <= i < |s| ==> |s[0]| <= |s[i]|
  }

  /** The first `cols` columns of `s`, turned clockwise: row `j` lists column `j` from the bottom up. */
  function Turn(s: Shape, cols: nat): (r: Shape)
    requires forall i :: 0 <= i < |s| ==> cols <= |s[i]|
    ensures |r| == cols && forall j :: 0 <= j < cols ==> |r[j]| == |s|
  {
    seq(cols, j requires 0 <= j < cols => seq(|s|, k requires 0 <= k < |s| => s[|s| - 1 - k][j]))
  }

  /**
   * The clockwise rotation of a shape with R rows whose row 0 has C
   * cells: C rows of R cells, cell (i, j) of the source landing at
   * (j, R - 1 - i).
   */
  function Rotated(s: Shape): (r: Shape)
    requires Rotatable(s)
    ensures |r| == |s[0]| && IsRectangular(r)
    ensures forall j :: 0 <= j < |r| ==> |r[j]| == |s|
    ensures forall i, j :: 0 <= i < |s| && 0 <= j < |s[0]| ==> r[j][|s| - 1 - i] == s[i][j]
  {
    Turn(s, |s[0]|)
  }

  /**
   * `rotate`: fills a fresh cols x rows buffer cell by cell and returns it
   * with the same colour; the original piece is a value and stays as it was.
   */
  method Rotate(t: Tetromino) returns (r: Tetromino)
    requires Rotatable(t.shape)
    ensures r.shape == Rotated(t.shape) && r.color == t.color
  {
    var shape := t.shape;
    var rows := |shape|;
    var cols := |shape[0]|;
    var rotated := new int[cols, rows]((a, b) => 0);
    for i := 0 to rows
      invariant forall a, b :: 0 <= a < cols && 0 <= b < rows ==>
        rotated[a, b] == if rows - 1 - b < i then shape[rows - 1 - b][a] else 0
    {
      for j := 0 to cols
        invariant forall a, b :: 0 <= a < cols && 0 <= b < rows ==>
          rotated[a, b] == if rows - 1 - b < i || (rows - 1 - b == i && a < j) then shape[rows - 1 - b][a] else 0
      {
        rotated[j, rows - 1 - i] := shape[i][j];
      }
    }
    var out := seq(cols, a requires 0 <= a < cols reads rotated =>
      seq(rows, b requires 0 <= b < rows reads rotated => rotated[a, b]));
    assert out == Rotated(shape) by {
      forall a | 0 <= a < cols ensures out[a] == Rotated(shape)[a] { }
    }
    r := Tetromino(out, t.color);
  }

  /** Rotating a well-formed shape gives a well-formed shape. */
  lemma RotatedWellFormed(s: Shape)
    requires WellFormed(s)
    ensures WellFormed(Rotated(s))
  {
    var i, j :| 0 <= i < |s| && 0 <= j < |s[i]| && s[i][j] != 0;
    var r := Rotated(s);
    assert r[j][|s| - 1 - i] != 0;
  }

  /** Two turns: cell (a, b) of the half-turned rectangle is cell (R-1-a, C-1-b) of the source. */
  lemma HalfTurn(s: Shape)
    requires |s| > 0 && |s[0]| > 0 && IsRectangular(s)
    ensures Rotatable(Rotated(s))
    ensures IsHalfTurn(Rotated(Rotated(s)), s)
  {
    var r := Rotated(s);
    var h := Rotated(r);
    forall a, b | 0 <= a < |s| && 0 <= b < |s[0]|
      ensures h[a][b] == s[|s| - 1 - a][|s[0]| - 1 - b]
    {
      assert h[a][b] == r[|r| - 1 - b][a];
    }
  }

  /**
   * h is the half turn of the rectangle s: same dimensions, and cell (a, b)
   * of h is cell (R-1-a, C-1-b) of s.
   */
  predicate IsHalfTurn(h: Shape, s: Shape)
    requires |s| > 0 && IsRectangular(s)
  {
    |h| == |s| && IsRectangular(h) && |h[0]| == |s[0]| &&
    forall a, b :: 0 <= a < |s| && 0 <= b < |s[0]| ==> h[a][b] == s[|s| - 1 - a][|s[0]| - 1 - b]
  }

  /** Two half turns give back the rectangle. */
  lemma HalfTurnTwice(s: Shape, h: Shape, f: Shape)
    requires |s| > 0 && IsRectangular(s) && IsHalfTurn(h, s) && IsHalfTurn(f, h)
    ensures f == s
  {
    forall a | 0 <= a < |s| ensures f[a] == s[a] {
      forall b | 0 <= b < |s[0]| ensures f[a][b] == s[a][b] {
        assert f[a][b] == h[|s| - 1 - a][|s[0]| - 1 - b];
      }
    }
  }

  /** Four clockwise rotations give back the original matrix. */
  lemma FourRotations(s: Shape)
    requires |s| > 0 && |s[0]| > 0 && IsRectangular(s)
    ensures Rotatable(Rotated(s)) && Rotatable(Rotated(Rotated(s)))
    ensures Rotatable(Rotated(Rotated(Rotated(s))))
    ensures Rotated(Rotated(Rotated(Rotated(s)))) == s
  {
    HalfTurn(s);
    var h := Rotated(Rotated(s));
    HalfTurn(h);
    HalfTurnTwice(s, h, Rotated(Rotated(h)));
  }

  /** The number of nonzero cells of a row. */
  function RowCount(row: seq<int>): nat {
    if row == [] then 0 else (if row[0] != 0 then 1 else 0) + RowCount(row[1..])
  }

  /** The number of nonzero cells of a shape. */
  function CellCount(s: Shape): nat {
    if s == [] then 0 else RowCount(s[0]) + CellCount(s[1..])
  }

  lemma {:induction false} RowCountAppend(row: seq<int>, v: int)
    ensures RowCount(row + [v]) == RowCount(row) + (if v != 0 then 1 else 0)
  {
    if row != [] {
      assert (row + [v])[1..] == row[1..] + [v];
      RowCountAppend(row[1..], v);
    }
  }

  /** Appending one column `col` to the rows `rows` adds the column's count. */
  lemma {:induction false} AppendColumnCount(rows: Shape, col: seq<int>)
    requires |rows| == |col|
    ensures CellCount(seq(|rows|, j requires 0 <= j < |rows| => rows[j] + [col[j]])) == CellCount(rows) + RowCount(col)
  {
    var z := seq(|rows|, j requires 0 <= j < |rows| => rows[j] + [col[j]]);
    if rows != [] {
      var z' := seq(|rows| - 1, j requires 0 <= j < |rows| - 1 => rows[1..][j] + [col[1..][j]]);
      assert z[1..] == z';
      AppendColumnCount(rows[1..], col[1..]);
      RowCountAppend(rows[0], col[0]);
    }
  }

  /** Turning a shape whose rows are all `cols` long keeps its count of nonzero cells. */
  lemma {:induction false} TurnCount(s: Shape, cols: nat)
    requires forall i :: 0 <= i < |s| ==> |s[i]| == cols
    ensures CellCount(Turn(s, cols)) == CellCount(s)
    decreases |s|
  {
    if s == [] {
      EmptyRowsCount(cols);
      assert Turn(s, cols) == seq<seq<int>>(cols, j => []);
    } else {
      var rest := Turn(s[1..], cols);
      TurnCount(s[1..], cols);
      var t := seq(|rest|, j requires 0 <= j < |rest| => rest[j] + [s[0][j]]);
      assert Turn(s, cols) == t by {
        forall j | 0 <= j < cols ensures Turn(s, cols)[j] == t[j] {
          assert |Turn(s, cols)[j]| == |t[j]|;
          forall k | 0 <= k < |s| ensures Turn(s, cols)[j][k] == t[j][k] {
            if k < |s| - 1 {
              assert t[j][k] == rest[j][k] == s[1..][|s| - 2 - k][j];
            }
          }
        }
      }
      assert s[0][..] == s[0];
      AppendColumnCount(rest, s[0]);
    }
  }

  lemma {:induction false} EmptyRowsCount(n: nat)
    ensures CellCount(seq<seq<int>>(n, j => [])) == 0
  {
    if n > 0 {
      assert seq<seq<int>>(n, j => [])[1..] == seq<seq<int>>(n - 1, j => []);
      EmptyRowsCount(n - 1);
    }
  }

  /** Rotation keeps the number of occupied cells, so an occupied cell survives any number of turns. */
  lemma RotatedCellCount(s: Shape)
    requires |s| > 0 && IsRectangular(s)
    ensures CellCount(Rotated(s)) == CellCount(s)
  {
    TurnCount(s, |s[0]|);
  }

  /** Android's `Color.rgb`: opaque alpha over 8-bit channels, read back as a signed 32-bit Int. */
  function Rgb(red: int, green: int, blue: int): (c: int)
    requires 0 <= red < 256 && 0 <= green < 256 && 0 <= blue < 256
    ensures -0x8000_0000 <= c < 0
  {
    0xFF00_0000 + red * 0x1_0000 + green * 0x100 + blue - 0x1_0000_0000
  }

  /** Splitting off the low byte: (q * 256 + b) has quotient q and remainder b. */
  lemma ByteSplit(q: int, b: int)
    requires 0 <= b < 256
    ensures (q * 256 + b) / 256 == q && (q * 256 + b) % 256 == b
  {
  }

  /** The packed colour, read as an unsigned 32-bit value, unpacks to its alpha and channels. */
  lemma RgbChannels(red: int, green: int, blue: int)
    requires 0 <= red < 256 && 0 <= green < 256 && 0 <= blue < 256
    ensures var v := Rgb(red, green, blue) + 0x1_0000_0000;
      v % 256 == blue && v / 256 % 256 == green && v / 0x1_0000 % 256 == red && v / 0x100_0000 == 0xFF
  {
    var v := Rgb(red, green, blue) + 0x1_0000_0000;
    var q2 := 0xFF * 256 + red;
    var q1 := q2 * 256 + green;
    assert v == q1 * 256 + blue;
    ByteSplit(q1, blue);
    ByteSplit(q2, green);
    ByteSplit(0xFF, red);
    assert v / 0x1_0000 == q2;
    assert v / 0x100_0000 == 0xFF;
  }

  /** Every cell is 0 or 1. */
  predicate IsBinary(s: Shape) {
    forall i, j :: 0 <= i < |s| && 0 <= j < |s[i]| ==> s[i][j] == 0 || s[i][j] == 1
  }

  /** The number of pieces in the catalog. */
  const PieceCount := 4

  /** `createAll`: the four pieces I (1 x 4), O (2 x 2), T (2 x 3) and L (2 x 3), in that order. */
  function CreateAll(): (all: seq<Tetromino>)
    ensures |all| == PieceCount
    ensures |all[0].shape| == 1 && Width(all[0].shape) == 4
    ensures |all[1].shape| == 2 && Width(all[1].shape) == 2
    ensures |all[2].shape| == 2 && Width(all[2].shape) == 3
    ensures |all[3].shape| == 2 && Width(all[3].shape) == 3
    ensures forall k :: 0 <= k < PieceCount ==> WellFormed(all[k].shape) && all[k].color != 0
  {
    assert [[1, 1, 1, 1]][0][0] != 0 && [[1, 1], [1, 1]][0][0] != 0;
    assert [[0, 1, 0], [1, 1, 1]][0][1] != 0 && [[0, 0, 1], [1, 1, 1]][0][2] != 0;
    [ Tetromino([[1, 1, 1, 1]], Rgb(107, 206, 255)),
      Tetromino([[1, 1], [1, 1]], Rgb(255, 230, 109)),
      Tetromino([[0, 1, 0], [1, 1, 1]], Rgb(255, 159, 214)),
      Tetromino([[0, 0, 1], [1, 1, 1]], Rgb(255, 179, 71)) ]
  }

  /** Every catalog piece is drawn with 0/1 cells and has exactly four occupied cells. */
  lemma CatalogCells()
    ensures forall k :: 0 <= k < PieceCount ==>
      IsBinary(CreateAll()[k].shape) && CellCount(CreateAll()[k].shape) == 4
  {
    FourCells([[1, 1, 1, 1]]);
    FourCells([[1, 1], [1, 1]]);
    FourCells([[0, 1, 0], [1, 1, 1]]);
    FourCells([[0, 0, 1], [1, 1, 1]]);
  }

  /** The cell count of a piece of at most two rows, row by row. */
  lemma FourCells(s: Shape)
    requires 1 <= |s| <= 2 && RowCount(s[0]) + (if |s| == 2 then RowCount(s[1]) else 0) == 4
    ensures CellCount(s) == 4
  {
    assert CellCount(s) == RowCount(s[0]) + CellCount(s[1..]);
    if |s| == 2 {
      assert CellCount(s[1..]) == RowCount(s[1]) + CellCount(s[2..]);
    }
  }

  /** `getRandom`, with the random index passed in: some piece of the catalog. */
  function GetRandom(pick: int): (t: Tetromino)
    requires 0 <= pick < PieceCount
    ensures t in CreateAll() && WellFormed(t.shape) && t.color != 0
  {
    CreateAll()[pick]
  }
}
