/**
 * Value-level definitions of the grid operations of TetrisGame.kt
 * (`checkCollision`, `lockTetromino`, `clearLines`): a grid is `h` rows of
 * `w` ints, 0 meaning empty. The engine's methods work in place on an
 * array and are proved to produce exactly these values.
 */
module Board {
  import opened Optional
  import opened Pieces

  type Grid = seq<seq<int>>

  /** `h` rows of `w` cells each. */
  predicate IsGrid(g: Grid, w: int, h: int) {
    |g| == h && forall r :: 0 <= r < |g| ==> |g[r]| == w
  }

  /** The grid `startNewGame` allocates: every cell empty. */
  function EmptyGrid(w: nat, h: nat): (g: Grid)
    ensures IsGrid(g, w, h)
    ensures forall r, c :: 0 <= r < h && 0 <= c < w ==> g[r][c] == 0
  {
    seq(h, r => seq(w, c => 0))
  }

  /** Two grids of the same dimensions that agree on every cell are equal. */
  lemma SameGrid(a: Grid, b: Grid, w: int, h: int)
    requires IsGrid(a, w, h) && IsGrid(b, w, h)
    requires forall r, c :: 0 <= r < h && 0 <= c < w ==> a[r][c] == b[r][c]
    ensures a == b
  {
    forall r | 0 <= r < h ensures a[r] == b[r] {
      assert |a[r]| == |b[r]|;
    }
  }

  // ----- checkCollision -----

  /**
   * Shape cell (i, j), placed with its top-left corner at (x, y), is occupied
   * and lands left of, right of or below the grid, or on a nonzero grid cell.
   * Cells above the top (row < 0) meet only the side walls.
   */
  predicate HitsAt(g: Grid, w: int, h: int, s: Shape, x: int, y: int, i: int, j: int)
    requires IsGrid(g, w, h)
    requires 0 <= i < |s| && 0 <= j < |s[i]|
  {
    s[i][j] != 0 &&
    (x + j < 0 || x + j >= w || y + i >= h || (y + i >= 0 && g[y + i][x + j] != 0))
  }

  /** `checkCollision`: an absent shape always collides; a shape collides when one of its cells hits. */
  predicate Collides(g: Grid, w: int, h: int, x: int, y: int, shape: Option<Shape>)
    requires IsGrid(g, w, h)
  {
    match shape
    case None => true
    case Some(s) => exists i, j :: 0 <= i < |s| && 0 <= j < |s[i]| && HitsAt(g, w, h, s, x, y, i, j)
  }

  /** A shape with an occupied cell that fits at row `y` lies above the floor. */
  lemma FitsAboveFloor(g: Grid, w: int, h: int, x: int, y: int, s: Shape)
    requires IsGrid(g, w, h) && HasOccupied(s)
    requires !Collides(g, w, h, x, y, Some(s))
    ensures y < h
  {
    var i, j :| 0 <= i < |s| && 0 <= j < |s[i]| && s[i][j] != 0;
    assert !HitsAt(g, w, h, s, x, y, i, j);
  }

  /**
   * `calculateGhostY` and the loop of `hardDrop`: from row `y`, the last row
   * reached by moving down while the next row is free.
   */
  function LandingY(g: Grid, w: int, h: int, x: int, y: int, s: Shape): (r: int)
    requires IsGrid(g, w, h) && HasOccupied(s)
    ensures r >= y
    ensures Collides(g, w, h, x, r + 1, Some(s))
    ensures forall y' :: y < y' <= r ==> !Collides(g, w, h, x, y', Some(s))
    decreases h - y
  {
    if Collides(g, w, h, x, y + 1, Some(s)) then y
    else
      FitsAboveFloor(g, w, h, x, y + 1, s);
      LandingY(g, w, h, x, y + 1, s)
  }

  /** The landing row is the only row satisfying the three conditions of `LandingY`. */
  lemma LandingYUnique(g: Grid, w: int, h: int, x: int, y: int, s: Shape, r: int)
    requires IsGrid(g, w, h) && HasOccupied(s)
    requires r >= y && Collides(g, w, h, x, r + 1, Some(s))
    requires forall y' :: y < y' <= r ==> !Collides(g, w, h, x, y', Some(s))
    ensures r == LandingY(g, w, h, x, y, s)
  {
    var l := LandingY(g, w, h, x, y, s);
    assert !(r < l);
    assert !(l < r);
  }

  // ----- lockTetromino -----

  /** Shape cell (i, j) exists and is occupied. */
  predicate Covers(s: Shape, i: int, j: int) {
    0 <= i < |s| && 0 <= j < |s[i]| && s[i][j] != 0
  }

  /**
   * The grid after locking shape `s` at (x, y) in colour `color`: the cells
   * under an occupied shape cell take the colour; occupied shape cells that
   * fall outside the grid (above the top included) are dropped.
   */
  function Locked(g: Grid, w: nat, h: nat, s: Shape, x: int, y: int, color: int): (r: Grid)
    requires IsGrid(g, w, h)
    ensures IsGrid(r, w, h)
    ensures forall i, j :: Covers(s, i, j) && 0 <= y + i < h && 0 <= x + j < w ==> r[y + i][x + j] == color
    ensures forall row, col :: 0 <= row < h && 0 <= col < w && !Covers(s, row - y, col - x) ==> r[row][col] == g[row][col]
  {
    seq(h, row requires 0 <= row < h =>
      seq(w, col requires 0 <= col < w => if Covers(s, row - y, col - x) then color else g[row][col]))
  }

  /**
   * Locking a shape at a position where it does not collide fills only
   * empty cells: every nonzero cell keeps its value, and afterwards the
   * cells under the shape inside the grid hold the colour.
   */
  lemma LockFillsEmptyCells(g: Grid, w: nat, h: nat, s: Shape, x: int, y: int, color: int)
    requires IsGrid(g, w, h) && !Collides(g, w, h, x, y, Some(s))
    ensures forall row, col :: 0 <= row < h && 0 <= col < w && g[row][col] != 0 ==>
      Locked(g, w, h, s, x, y, color)[row][col] == g[row][col]
    ensures forall i, j :: Covers(s, i, j) ==> 0 <= x + j < w && y + i < h
  {
    forall i, j | Covers(s, i, j) ensures !HitsAt(g, w, h, s, x, y, i, j) { }
    forall row, col | 0 <= row < h && 0 <= col < w && g[row][col] != 0
      ensures !Covers(s, row - y, col - x)
    { }
  }

  // ----- clearLines -----

  /** Every cell of row `r` is nonzero. */
  predicate IsFull(g: Grid, w: int, r: int)
    requires 0 <= r < |g| && |g[r]| == w
  {
    forall c :: 0 <= c < w ==> g[r][c] != 0
  }

  /** Strictly decreasing values. */
  predicate Descending(rows: seq<int>) {
    forall a, b :: 0 <= a < b < |rows| ==> rows[a] > rows[b]
  }

  /**
   * The rows `clearLines` records when it scans rows |g|-1 down to `lo`:
   * the full ones, bottom first.
   */
  function FullRowsFrom(g: Grid, w: int, lo: int): (rows: seq<int>)
    requires IsGrid(g, w, |g|) && 0 <= lo <= |g|
    ensures forall k :: 0 <= k < |rows| ==> lo <= rows[k] < |g|
    decreases |g| - lo
  {
    if lo == |g| then []
    else FullRowsFrom(g, w, lo + 1) + (if IsFull(g, w, lo) then [lo] else [])
  }

  function FullRows(g: Grid, w: int): (rows: seq<int>)
    requires IsGrid(g, w, |g|)
  {
    FullRowsFrom(g, w, 0)
  }

  /** The recorded rows are exactly the full rows at or below `lo`, listed bottom first. */
  lemma {:induction false} FullRowsFromSpec(g: Grid, w: int, lo: int)
    requires IsGrid(g, w, |g|) && 0 <= lo <= |g|
    ensures Descending(FullRowsFrom(g, w, lo))
    ensures forall r :: r in FullRowsFrom(g, w, lo) <==> lo <= r < |g| && IsFull(g, w, r)
    decreases |g| - lo
  {
    if lo < |g| {
      FullRowsFromSpec(g, w, lo + 1);
    }
  }

  /** The rows `clearLines` records are exactly the full rows, bottom first (so sorting them descending changes nothing). */
  lemma FullRowsSpec(g: Grid, w: int)
    requires IsGrid(g, w, |g|)
    ensures Descending(FullRows(g, w))
    ensures forall r :: r in FullRows(g, w) <==> 0 <= r < |g| && IsFull(g, w, r)
  {
    FullRowsFromSpec(g, w, 0);
  }

  /**
   * One iteration of the shifting loop of `clearLines` for row `row`: row
   * `row` is deleted and an empty row enters at the top.
   */
  function ShiftDown(g: Grid, w: nat, row: int): (r: Grid)
    requires IsGrid(g, w, |g|) && 0 <= row < |g|
    ensures IsGrid(r, w, |g|)
    ensures forall i :: row < i < |g| ==> r[i] == g[i]
    ensures forall i :: 1 <= i <= row ==> r[i] == g[i - 1]
    ensures forall c :: 0 <= c < w ==> r[0][c] == 0
  {
    [seq(w, c => 0)] + g[..row] + g[row + 1..]
  }

  /** Row indices of a grid of height `h`. */
  predicate RowIndices(rows: seq<int>, h: int) {
    forall k :: 0 <= k < |rows| ==> 0 <= rows[k] < h
  }

  /** The shifting loop of `clearLines`, run for each of `rows` in turn, with no re-indexing in between. */
  function ApplyShifts(g: Grid, w: nat, rows: seq<int>): (r: Grid)
    requires IsGrid(g, w, |g|) && RowIndices(rows, |g|)
    ensures IsGrid(r, w, |g|)
    decreases |rows|
  {
    if rows == [] then g
    else ShiftDown(ApplyShifts(g, w, rows[..|rows| - 1]), w, rows[|rows| - 1])
  }

  /** The grid `clearLines` leaves behind. */
  function Cleared(g: Grid, w: nat): (r: Grid)
    requires IsGrid(g, w, |g|)
  {
    ApplyShifts(g, w, FullRows(g, w))
  }

  /** Rows in [lo, hi) that are not full add nothing to what is recorded. */
  lemma {:induction false} FullRowsFromSkip(g: Grid, w: int, lo: int, hi: int)
    requires IsGrid(g, w, |g|) && 0 <= lo <= hi <= |g|
    requires forall r :: lo <= r < hi ==> !IsFull(g, w, r)
    ensures FullRowsFrom(g, w, lo) == FullRowsFrom(g, w, hi)
    decreases hi - lo
  {
    if lo < hi {
      FullRowsFromSkip(g, w, lo + 1, hi);
    }
  }

  /** No full row at or below `lo`: nothing is recorded. */
  lemma FullRowsFromNone(g: Grid, w: int, lo: int)
    requires IsGrid(g, w, |g|) && 0 <= lo <= |g|
    requires forall r :: lo <= r < |g| ==> !IsFull(g, w, r)
    ensures FullRowsFrom(g, w, lo) == []
  {
    FullRowsFromSkip(g, w, lo, |g|);
  }

  /** A single full row at or below `lo`: it alone is recorded. */
  lemma FullRowsFromOne(g: Grid, w: int, lo: int, row: int)
    requires IsGrid(g, w, |g|) && 0 <= lo <= row < |g| && IsFull(g, w, row)
    requires forall r :: lo <= r < |g| && r != row ==> !IsFull(g, w, r)
    ensures FullRowsFrom(g, w, lo) == [row]
  {
    FullRowsFromNone(g, w, row + 1);
    FullRowsFromSkip(g, w, lo, row);
  }

  /** Without full rows, `clearLines` leaves the grid as it was. */
  lemma ClearedNoFullRows(g: Grid, w: nat)
    requires IsGrid(g, w, |g|)
    requires forall r :: 0 <= r < |g| ==> !IsFull(g, w, r)
    ensures FullRows(g, w) == [] && Cleared(g, w) == g
  {
    FullRowsFromNone(g, w, 0);
  }

  /**
   * With a single full row, `clearLines` compacts correctly: that row is
   * gone, the rows above it move down one, the rows below stay, and the
   * top row is empty.
   */
  lemma ClearedOneFullRow(g: Grid, w: nat, row: int)
    requires IsGrid(g, w, |g|) && 0 <= row < |g| && IsFull(g, w, row)
    requires forall r :: 0 <= r < |g| && r != row ==> !IsFull(g, w, r)
    ensures FullRows(g, w) == [row]
    ensures Cleared(g, w) == [seq(w, c => 0)] + g[..row] + g[row + 1..]
  {
    FullRowsFromOne(g, w, 0, row);
    assert [row][..0] == [];
    assert ApplyShifts(g, w, [row]) == ShiftDown(g, w, row);
  }

  /**
   * Two full rows `a` < `b` are not compacted (rows 2 and 5 of a 10-row
   * grid, say): clearing `b` moves the old row `a` down to `a` + 1, then
   * the shift for "row `a`" deletes what is now at row `a`, the old row
   * `a` - 1. So the full row `a` survives at row `a` + 1 and the old row
   * `a` - 1 is lost, while both rows are recorded (and scored).
   */
  lemma ClearedTwoRowsKeepsFullRow(g: Grid, w: nat, a: int, b: int)
    requires IsGrid(g, w, |g|) && 0 <= a < b < |g|
    requires IsFull(g, w, a) && IsFull(g, w, b)
    requires forall r :: 0 <= r < |g| && r != a && r != b ==> !IsFull(g, w, r)
    ensures FullRows(g, w) == [b, a]
    ensures Cleared(g, w)[a + 1] == g[a] && IsFull(Cleared(g, w), w, a + 1)
    ensures a >= 1 ==> Cleared(g, w)[..a + 1] == [seq(w, c => 0), seq(w, c => 0)] + g[..a - 1]
  {
    FullRowsFromOne(g, w, a + 1, b);
    assert FullRowsFrom(g, w, a) == [b, a];
    FullRowsFromSkip(g, w, 0, a);
    assert Cleared(g, w) == ApplyShifts(g, w, [b, a]);
    TwoShifts(g, w, b, a);
    ShiftTwice(g, w, a, b);
  }

  /** Shifting for the rows [b, a] in turn is shifting for b, then for a. */
  lemma TwoShifts(g: Grid, w: nat, b: int, a: int)
    requires IsGrid(g, w, |g|) && 0 <= a < |g| && 0 <= b < |g|
    ensures ApplyShifts(g, w, [b, a]) == ShiftDown(ShiftDown(g, w, b), w, a)
  {
    assert [b, a][..1] == [b];
    assert ApplyShifts(g, w, [b, a]) == ShiftDown(ApplyShifts(g, w, [b]), w, a);
    assert [b][..0] == [];
    assert ApplyShifts(g, w, [b]) == ShiftDown(g, w, b);
  }

  /**
   * The shift for `a` after the shift for `b` > `a`: the old row `a` sits at
   * row `a` + 1, rows 0 and 1 are empty, and rows 2 to `a` hold the old
   * rows 0 to `a` - 2.
   */
  lemma ShiftTwice(g: Grid, w: nat, a: int, b: int)
    requires IsGrid(g, w, |g|) && 0 <= a < b < |g|
    ensures ShiftDown(ShiftDown(g, w, b), w, a)[a + 1] == g[a]
    ensures a >= 1 ==> ShiftDown(ShiftDown(g, w, b), w, a)[..a + 1] == [seq(w, c => 0), seq(w, c => 0)] + g[..a - 1]
  {
    var g1 := ShiftDown(g, w, b);
    var g2 := ShiftDown(g1, w, a);
    assert g2[a + 1] == g1[a + 1] == g[a];
    if a >= 1 {
      var want := [seq(w, c => 0), seq(w, c => 0)] + g[..a - 1];
      assert g2[0] == want[0] by {
        assert |g2[0]| == w;
      }
      assert g2[1] == g1[0] == want[1] by {
        assert |g1[0]| == w;
      }
      forall i | 2 <= i <= a ensures g2[..a + 1][i] == want[i] {
        assert g2[i] == g1[i - 1] == g[i - 2];
      }
    }
  }
}
